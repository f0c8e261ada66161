/** Commands as the client lays them out in bytes and as the server reads them. */
module CommandCodec {
  import opened Bytes
  import opened CommandFraming
  import opened ChannelRegistry

  // ss_proto
  const SS_INIT := 0
  const SS_NEWRCHAN := 3
  const SS_NEWWCHAN := 4
  const SS_BINDCHAN := 5
  const SS_CLOSECHAN := 6

  /** The keyword with its terminating zero. */
  const KEYWORD: seq<Byte> := [104, 105, 33, 0]

  const TEXT_SIZE := 128

  /** The text of a C string: up to the first zero. */
  function UpToZero(s: seq<Byte>): seq<Byte> {
    if s == [] || s[0] == 0 then [] else [s[0]] + UpToZero(s[1..])
  }

  /** How processCommands reads a command: only the low 32 bits of the code survive the cast to the
      enumeration; the text is the keyword, or a size and a name prefix, or a hash. */
  function Decode(cmd: seq<Byte>): Cmd
    requires |cmd| == CMD_SIZE
  {
    var code := Load32(cmd[..4]);
    if code == SS_INIT then Init(cmd[16..20] == KEYWORD)
    else if code == SS_NEWRCHAN then NewRChan(Load32(cmd[16..20]), UpToZero(cmd[20..]))
    else if code == SS_NEWWCHAN then NewWChan(Load32(cmd[16..20]), UpToZero(cmd[20..]))
    else if code == SS_BINDCHAN then BindChan(Load64(cmd[8..16]), Load64(cmd[16..24]))
    else if code == SS_CLOSECHAN then CloseChan(Load64(cmd[8..16]))
    else Unsupported
  }

  /** What a client can ask for: the prefix must leave room in the text for its terminating zero. */
  predicate Sendable(c: Cmd) {
    match c
    case Init(keyword) => keyword
    case NewRChan(_, prefix) => |prefix| < TEXT_SIZE - 4
    case NewWChan(_, prefix) => |prefix| < TEXT_SIZE - 4
    case BindChan(id, hash) => id < U64 && hash < U64
    case CloseChan(id) => id < U64
    case Unsupported => false
  }

  /** What arrives of it: the low 32 bits of a size, and a prefix up to its first zero. */
  function AsRead(c: Cmd): Cmd {
    match c
    case NewRChan(size, prefix) => NewRChan(size % U32, UpToZero(prefix))
    case NewWChan(size, prefix) => NewWChan(size % U32, UpToZero(prefix))
    case _ => c
  }

  function CodeOf(c: Cmd): (code: nat)
    requires Sendable(c)
    ensures code < 7
  {
    match c
    case Init(_) => SS_INIT
    case NewRChan(_, _) => SS_NEWRCHAN
    case NewWChan(_, _) => SS_NEWWCHAN
    case BindChan(_, _) => SS_BINDCHAN
    case CloseChan(_) => SS_CLOSECHAN
  }

  function IdOf(c: Cmd): (id: nat)
    requires Sendable(c)
    ensures id < U64
  {
    match c
    case BindChan(id, _) => id
    case CloseChan(id) => id
    case _ => 0
  }

  /** What the client copies to the start of the text, which is zero otherwise. */
  function TextStart(c: Cmd): (s: seq<Byte>)
    requires Sendable(c)
    ensures |s| < TEXT_SIZE
  {
    match c
    case Init(_) => KEYWORD
    case NewRChan(size, prefix) => Store32(size % U32) + prefix
    case NewWChan(size, prefix) => Store32(size % U32) + prefix
    case BindChan(_, hash) => Store64(hash)
    case CloseChan(_) => []
  }

  function Zeros(n: nat): (s: seq<Byte>)
    ensures |s| == n
  {
    seq(n, i => 0)
  }

  /** The client's layout of a command. */
  function Encode(c: Cmd): (cmd: seq<Byte>)
    requires Sendable(c)
    ensures |cmd| == CMD_SIZE
  {
    Store64(CodeOf(c)) + Store64(IdOf(c)) + TextStart(c) + Zeros(TEXT_SIZE - |TextStart(c)|)
  }

  lemma {:induction false} CutsAtZero(s: seq<Byte>, n: nat)
    requires n > 0
    ensures UpToZero(s + Zeros(n)) == UpToZero(s)
    decreases |s|
  {
    if s != [] && s[0] != 0 {
      assert (s + Zeros(n))[1..] == s[1..] + Zeros(n);
      CutsAtZero(s[1..], n);
    }
  }

  lemma {:induction false} WholeWithoutZero(s: seq<Byte>)
    ensures UpToZero(s) == s <==> 0 !in s
    decreases |s|
  {
    if s != [] {
      WholeWithoutZero(s[1..]);
      assert s == [s[0]] + s[1..];
    }
  }

  lemma Sections(a: seq<Byte>, b: seq<Byte>, t: seq<Byte>, rest: seq<Byte>)
    requires |a| == 8 && |b| == 8
    ensures (a + b + t + rest)[..8] == a && (a + b + t + rest)[8..16] == b
    ensures (a + b + t + rest)[16..16 + |t|] == t
  {
  }

  lemma LowHalf(v: nat, cmd: seq<Byte>)
    requires v < U32 && |cmd| >= 8 && cmd[..8] == Store64(v)
    ensures Load32(cmd[..4]) == v
  {
    hide Load32, Store32;
    assert cmd[..4] == cmd[..8][..4] == Store32(v);
    RoundTrip32(v);
  }

  lemma TextParts(a: seq<Byte>, b: seq<Byte>, z: seq<Byte>, cmd: seq<Byte>)
    requires |cmd| == CMD_SIZE && |a| == 4 && cmd[16..] == a + b + z
    ensures cmd[16..20] == a && cmd[20..] == b + z
  {
    assert cmd[16..20] == cmd[16..][..4];
    assert cmd[20..] == cmd[16..][4..];
  }

  /** The two fields of a channel's text. */
  lemma ChannelText(size: nat, prefix: seq<Byte>, cmd: seq<Byte>)
    requires |cmd| == CMD_SIZE && |prefix| < TEXT_SIZE - 4
    requires cmd[16..] == Store32(size % U32) + prefix + Zeros(TEXT_SIZE - 4 - |prefix|)
    ensures Load32(cmd[16..20]) == size % U32 && UpToZero(cmd[20..]) == UpToZero(prefix)
  {
    hide Load32, Store32, UpToZero, Zeros;
    var zeros := Zeros(TEXT_SIZE - 4 - |prefix|);
    TextParts(Store32(size % U32), prefix, zeros, cmd);
    RoundTrip32(size % U32);
    CutsAtZero(prefix, TEXT_SIZE - 4 - |prefix|);
  }

  lemma TextOf(c: Cmd)
    requires Sendable(c)
    ensures Encode(c)[16..] == TextStart(c) + Zeros(TEXT_SIZE - |TextStart(c)|)
  {
    hide Store64, TextStart, Zeros, CodeOf, IdOf;
  }

  /** The server reads what the client meant, as far as it is transmitted ... */
  lemma DecodeEncode(c: Cmd)
    requires Sendable(c)
    ensures Decode(Encode(c)) == AsRead(c)
  {
    hide Load32, Load64, Store32, Store64, UpToZero, Zeros;
    var cmd := Encode(c);
    TextOf(c);
    Sections(Store64(CodeOf(c)), Store64(IdOf(c)), TextStart(c), Zeros(TEXT_SIZE - |TextStart(c)|));
    LowHalf(CodeOf(c), cmd);
    RoundTrip64(IdOf(c));
    match c
    case BindChan(_, hash) => RoundTrip64(hash);
    case NewRChan(size, prefix) =>
      ChannelText(size, prefix, cmd);
    case NewWChan(size, prefix) =>
      ChannelText(size, prefix, cmd);
    case _ =>
    hide Encode;
  }

  /** ... which is all of it exactly if a channel's size fits 32 bits and its prefix has no zero. */
  lemma ReadInFull(c: Cmd)
    ensures AsRead(c) == c <==> (c.NewRChan? || c.NewWChan? ==> c.size < U32 && 0 !in c.prefix)
  {
    if c.NewRChan? || c.NewWChan? {
      WholeWithoutZero(c.prefix);
    }
  }

  predicate AllSendable(cs: seq<Cmd>) {
    forall i: nat | i < |cs| :: Sendable(cs[i])
  }

  /** The commands of a client as bytes. */
  function EncodeAll(cs: seq<Cmd>): (cmds: seq<seq<Byte>>)
    requires AllSendable(cs)
    ensures AllCommands(cmds) && |cmds| == |cs|
  {
    seq(|cs|, i requires 0 <= i < |cs| => Encode(cs[i]))
  }

  function DecodeAll(cmds: seq<seq<Byte>>): (cs: seq<Cmd>)
    requires AllCommands(cmds)
    ensures |cs| == |cmds|
  {
    seq(|cmds|, i requires 0 <= i < |cmds| => Decode(cmds[i]))
  }

  /** End to end: whatever part of the client's bytes has arrived, in whatever portions, the commands
      that the server has read are the first of those the client sent, and all that are complete. */
  lemma ServerReadsWhatClientSent(cs: seq<Cmd>, received: seq<Byte>)
    requires AllSendable(cs) && received <= Concat(EncodeAll(cs))
    ensures AllCommands(Commands(received))
    ensures var got := DecodeAll(Commands(received));
            && |got| == |received| / CMD_SIZE <= |cs|
            && (forall i: nat | i < |got| :: got[i] == AsRead(cs[i]))
    ensures received == Concat(EncodeAll(cs)) ==> |received| / CMD_SIZE == |cs|
  {
    var sent, got := EncodeAll(cs), Commands(received);
    ReceivedIsPrefixOfSent(sent, received, received);
    CutLosesNothing(received);
    hide Concat, Decode, Encode, AsRead, Sendable;
    forall i: nat | i < |got|
      ensures DecodeAll(got)[i] == AsRead(cs[i])
    {
      assert got[i] == sent[i];
      DecodeEncode(cs[i]);
    }
  }
}
