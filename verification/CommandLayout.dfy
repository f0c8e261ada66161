/** What the server takes the bytes of a command for, said on the bytes. */
module CommandLayout {
  import opened Bytes
  import opened CommandFraming
  import opened ChannelRegistry
  import opened CommandCodec

  /** t is the C string at the start of s, which ends at the first zero, or with s. */
  predicate Text(s: seq<Byte>, t: seq<Byte>) {
    t <= s && 0 !in t && (|t| < |s| ==> s[|t|] == 0)
  }

  lemma {:induction false} TextIsUpToZero(s: seq<Byte>, t: seq<Byte>)
    ensures Text(s, t) <==> t == UpToZero(s)
    decreases |s|
  {
    if s == [] {
    } else if s[0] == 0 {
      assert t != [] && t <= s ==> t[0] == 0;
    } else if t == [] {
    } else {
      TextIsUpToZero(s[1..], t[1..]);
      assert t == [t[0]] + t[1..] && s == [s[0]] + s[1..];
      assert t <= s <==> t[0] == s[0] && t[1..] <= s[1..];
    }
  }

  /** "hi!" */
  const GREETING: seq<Byte> := [104, 105, 33]

  predicate Code(cmd: seq<Byte>, code: Byte)
    requires |cmd| == CMD_SIZE
  {
    cmd[..4] == [code, 0, 0, 0]
  }

  /** The bytes are those of the command c: a code in the low word of the first field, an id, and a text
      that is the keyword, a size and a prefix, or a hash. Any other code is unsupported. */
  predicate Asks(cmd: seq<Byte>, c: Cmd)
    requires |cmd| == CMD_SIZE
  {
    match c
    case Init(keyword) => Code(cmd, 0) && (keyword <==> Text(cmd[16..], GREETING))
    case NewRChan(size, prefix) =>
      Code(cmd, 3) && size < U32 && cmd[16..20] == Store32(size) && Text(cmd[20..], prefix)
    case NewWChan(size, prefix) =>
      Code(cmd, 4) && size < U32 && cmd[16..20] == Store32(size) && Text(cmd[20..], prefix)
    case BindChan(id, hash) =>
      && Code(cmd, 5) && id < U64 && hash < U64
      && cmd[8..16] == Store64(id) && cmd[16..24] == Store64(hash)
    case CloseChan(id) => Code(cmd, 6) && id < U64 && cmd[8..16] == Store64(id)
    case Unsupported => !Code(cmd, 0) && !Code(cmd, 3) && !Code(cmd, 4) && !Code(cmd, 5) && !Code(cmd, 6)
  }

  lemma CodeIs(cmd: seq<Byte>, code: Byte)
    requires |cmd| == CMD_SIZE
    ensures Load32(cmd[..4]) == code <==> Code(cmd, code)
  {
    LoadsAs32(cmd[..4], code);
    hide Load32;
    assert Store32(code) == [code, 0, 0, 0];
  }

  lemma KeywordIs(cmd: seq<Byte>)
    requires |cmd| == CMD_SIZE
    ensures cmd[16..20] == KEYWORD <==> Text(cmd[16..], GREETING)
  {
    var text := cmd[16..];
    assert cmd[16..20] == text[..4];
    assert text[..4] == text[..3] + [text[3]];
    assert KEYWORD == GREETING + [0];
  }

  lemma ChannelIs(cmd: seq<Byte>, size: nat, prefix: seq<Byte>)
    requires |cmd| == CMD_SIZE
    ensures Load32(cmd[16..20]) == size && UpToZero(cmd[20..]) == prefix
       <==> size < U32 && cmd[16..20] == Store32(size) && Text(cmd[20..], prefix)
  {
    TextIsUpToZero(cmd[20..], prefix);
    if size < U32 {
      LoadsAs32(cmd[16..20], size);
    }
    hide Text, UpToZero, Store32;
  }

  lemma FieldIs(cmd: seq<Byte>, at: nat, v: nat)
    requires |cmd| == CMD_SIZE && at + 8 <= CMD_SIZE
    ensures Load64(cmd[at..at + 8]) == v <==> v < U64 && cmd[at..at + 8] == Store64(v)
  {
    if v < U64 {
      LoadsAs64(cmd[at..at + 8], v);
    }
    hide Store64;
  }

  /** Which constructor Decode gives. */
  lemma CodeDecides(cmd: seq<Byte>)
    requires |cmd| == CMD_SIZE
    ensures Code(cmd, 0) <==> Decode(cmd).Init?
    ensures Code(cmd, 3) <==> Decode(cmd).NewRChan?
    ensures Code(cmd, 4) <==> Decode(cmd).NewWChan?
    ensures Code(cmd, 5) <==> Decode(cmd).BindChan?
    ensures Code(cmd, 6) <==> Decode(cmd).CloseChan?
  {
    hide Code, Load32, Load64, UpToZero;
    CodeIs(cmd, 0);
    CodeIs(cmd, 3);
    CodeIs(cmd, 4);
    CodeIs(cmd, 5);
    CodeIs(cmd, 6);
  }

  /** What Decode fills in. */
  lemma DecodedParts(cmd: seq<Byte>)
    requires |cmd| == CMD_SIZE
    ensures match Decode(cmd)
            case Init(keyword) => keyword <==> cmd[16..20] == KEYWORD
            case NewRChan(size, prefix) => size == Load32(cmd[16..20]) && prefix == UpToZero(cmd[20..])
            case NewWChan(size, prefix) => size == Load32(cmd[16..20]) && prefix == UpToZero(cmd[20..])
            case BindChan(id, hash) => id == Load64(cmd[8..16]) && hash == Load64(cmd[16..24])
            case CloseChan(id) => id == Load64(cmd[8..16])
            case Unsupported => true
  {
    hide Load32, Load64, UpToZero;
  }

  /** Main result: processCommands takes 144 bytes for the command c exactly if they are laid out as c. */
  lemma DecodeExactly(cmd: seq<Byte>, c: Cmd)
    requires |cmd| == CMD_SIZE
    ensures Decode(cmd) == c <==> Asks(cmd, c)
  {
    CodeDecides(cmd);
    DecodedParts(cmd);
    hide Decode, Code, Load32, Load64, Store32, Store64, Text, UpToZero;
    KeywordIs(cmd);
    match c
    case NewRChan(size, prefix) => ChannelIs(cmd, size, prefix);
    case NewWChan(size, prefix) => ChannelIs(cmd, size, prefix);
    case BindChan(id, hash) =>
      FieldIs(cmd, 8, id);
      FieldIs(cmd, 16, hash);
    case CloseChan(id) => FieldIs(cmd, 8, id);
    case _ =>
  }

  lemma HighWordOf(v: nat)
    requires v < U32
    ensures Store64(v)[4..] == [0, 0, 0, 0] && Store64(0) == [0, 0, 0, 0, 0, 0, 0, 0]
  {
    assert v / U32 == 0 && Store32(0) == [0, 0, 0, 0];
  }

  lemma UnusedNumbers(c: Cmd)
    requires Sendable(c)
    ensures Encode(c)[4..8] == [0, 0, 0, 0]
    ensures !c.BindChan? && !c.CloseChan? ==> Encode(c)[8..16] == [0, 0, 0, 0, 0, 0, 0, 0]
  {
    HighWordOf(CodeOf(c));
    Sections(Store64(CodeOf(c)), Store64(IdOf(c)), TextStart(c), Zeros(TEXT_SIZE - |TextStart(c)|));
    hide Store64, TextStart, Zeros;
    assert Encode(c)[4..8] == Encode(c)[..8][4..];
  }

  lemma UnusedText(c: Cmd)
    requires Sendable(c)
    ensures forall i | 16 + |TextStart(c)| <= i < CMD_SIZE :: Encode(c)[i] == 0
  {
    TextOf(c);
    var cmd, text := Encode(c), TextStart(c);
    hide Encode, TextStart;
    forall i | 16 + |text| <= i < CMD_SIZE
      ensures cmd[i] == 0
    {
      assert cmd[i] == cmd[16..][i - 16] == Zeros(TEXT_SIZE - |text|)[i - 16 - |text|];
    }
  }

  /** The client lays a command out as the server reads it, with nothing in the bytes that are not used. */
  lemma ClientLayout(c: Cmd)
    requires Sendable(c)
    ensures Asks(Encode(c), AsRead(c))
    ensures Encode(c)[4..8] == [0, 0, 0, 0]
    ensures !c.BindChan? && !c.CloseChan? ==> Encode(c)[8..16] == [0, 0, 0, 0, 0, 0, 0, 0]
    ensures forall i | 16 + |TextStart(c)| <= i < CMD_SIZE :: Encode(c)[i] == 0
  {
    DecodeEncode(c);
    UnusedNumbers(c);
    UnusedText(c);
    hide Encode, Decode, Asks, AsRead, TextStart, Sendable;
    DecodeExactly(Encode(c), AsRead(c));
  }
}
