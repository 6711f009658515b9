/** The front end of the `heartbeat` command: the default probe packet, the
    decoder for the `--packet-hex` override, and the checks `RunE` makes, in
    order, before it hands an `internal.Heartbeat` to the sender. */
module HeartbeatCmd {
  import opened GoBase
  import opened GoStrings
  import opened Hex

  /** Valve's A2S_INFO server query: four 0xFF bytes, "TSource Engine Query", a NUL. */
  const DefaultPacket: seq<byte> := [
    0xff, 0xff, 0xff, 0xff,
    'T' as byte, 'S' as byte, 'o' as byte, 'u' as byte, 'r' as byte, 'c' as byte, 'e' as byte, ' ' as byte,
    'E' as byte, 'n' as byte, 'g' as byte, 'i' as byte, 'n' as byte, 'e' as byte, ' ' as byte,
    'Q' as byte, 'u' as byte, 'e' as byte, 'r' as byte, 'y' as byte,
    0x00
  ]

  /** The layout of the default packet, byte by byte. */
  lemma DefaultPacketLayout()
    ensures |DefaultPacket| == 25
    ensures forall i :: 0 <= i < 4 ==> DefaultPacket[i] == 0xff
    ensures forall i :: 4 <= i < 24 ==> DefaultPacket[i] as int == "TSource Engine Query"[i - 4] as int
    ensures DefaultPacket[24] == 0x00
    ensures DefaultPacket == [0xFF, 0xFF, 0xFF, 0xFF, 0x54, 0x53, 0x6F, 0x75, 0x72, 0x63, 0x65, 0x20, 0x45,
                              0x6E, 0x67, 0x69, 0x6E, 0x65, 0x20, 0x51, 0x75, 0x65, 0x72, 0x79, 0x00]
  {
  }

  // ---------------------------------------------------------------------------
  // decodeHexPacket
  // ---------------------------------------------------------------------------

  /** What `decodeHexPacket` decodes: its input with surrounding white space
      trimmed, then one leading lower-case "0x" dropped, then every ' ' removed. */
  function Clean(s: string): string {
    RemoveAll(TrimPrefix(TrimSpace(s), "0x"), ' ')
  }

  /** Why `decodeHexPacket` fails: its own even-length check, or the error of `hex.DecodeString`. */
  datatype PacketError = OddLength | BadHex(cause: HexError)

  /** `decodeHexPacket`; what it returns is stated by `DecodeHexPacketOutcome`
      and `DecodeHexPacketValue`. */
  function DecodeHexPacket(s: string): Result<seq<byte>, PacketError> {
    var clean := Clean(s);
    if |Bytes(clean)| % 2 != 0 then Err(OddLength)
    else
      match DecodeString(clean)
      case Ok(b) => Ok(b)
      case Err(e) => Err(BadHex(e))
  }

  /** The length test counts bytes, as Go's `len` does, and comes before any
      digit is looked at; decoding succeeds exactly on an even number of hex
      digit characters; otherwise the first byte that is not a hex digit is
      the one reported. */
  lemma DecodeHexPacketOutcome(s: string)
    ensures DecodeHexPacket(s) == Err(OddLength) <==> |Bytes(Clean(s))| % 2 == 1
    ensures DecodeHexPacket(s).Ok? <==> |Clean(s)| % 2 == 0 && forall i :: 0 <= i < |Clean(s)| ==> IsHexChar(Clean(s)[i])
    ensures |Bytes(Clean(s))| % 2 == 0 && FirstInvalid(Bytes(Clean(s))) < |Bytes(Clean(s))| ==>
              DecodeHexPacket(s) == Err(BadHex(InvalidByte(Bytes(Clean(s))[FirstInvalid(Bytes(Clean(s)))])))
  {
    var src := Bytes(Clean(s));
    HexTextBytes(Clean(s));
    DecodeSucceeds(src);
    if FirstInvalid(src) < |src| {
      DecodeFirstInvalid(src);
    }
  }

  /** An even number of hex digit characters after cleaning decodes to half as
      many bytes, each the value of a pair of cleaned digits, high digit first. */
  lemma DecodeHexPacketValue(s: string)
    requires |Clean(s)| % 2 == 0 && forall i :: 0 <= i < |Clean(s)| ==> IsHexChar(Clean(s)[i])
    ensures DecodeHexPacket(s).Ok? && 2 * |DecodeHexPacket(s).value| == |Clean(s)|
    ensures forall i :: 0 <= i < |DecodeHexPacket(s).value| ==>
              DecodeHexPacket(s).value[i] as int == 16 * CharVal(Clean(s)[2 * i]) + CharVal(Clean(s)[2 * i + 1])
  {
    var clean := Clean(s);
    var src := Bytes(clean);
    HexTextBytes(clean);
    DecodeValue(src);
    assert DecodeHexPacket(s) == Ok(Decode(src).value);
  }

  /** Surrounding white space never changes what is decoded. */
  lemma DecodeIgnoresSurroundingSpace(w1: string, s: string, w2: string)
    requires AllSpace(w1) && AllSpace(w2)
    ensures DecodeHexPacket(w1 + s + w2) == DecodeHexPacket(s)
  {
    TrimSpaceIgnoresSurroundingSpace(w1, s, w2);
  }

  /** A prefix of `s` can only start with `p` if `s` does. */
  lemma PrefixOfPrefix(m: string, s: string, p: string)
    requires |m| <= |s| && m == s[..|m|]
    requires !HasPrefix(s, p)
    ensures !HasPrefix(m, p)
  {
    if |p| <= |m| {
      assert m[..|p|] == s[..|p|];
    }
  }

  /** One leading "0x" in front of text that neither starts with white space
      nor with another "0x" is dropped by cleaning. */
  lemma CleanStripsOnePrefix(s: string)
    requires s == [] || !IsSpace(s[0])
    requires !HasPrefix(s, "0x")
    ensures Clean("0x" + s) == Clean(s)
  {
    TrimSpacePrepend("0x", s);
    var m := TrimSpace(s);
    assert ("0x" + m)[..2] == "0x" && ("0x" + m)[2..] == m;
    assert TrimLeftSpace(s) == s;
    var b := TrimRightSplit(s);
    assert s == m + b && s[..|m|] == m;
    PrefixOfPrefix(m, s, "0x");
  }

  /** The same, for the whole decoder. */
  lemma DecodeStripsOnePrefix(s: string)
    requires s == [] || !IsSpace(s[0])
    requires !HasPrefix(s, "0x")
    ensures DecodeHexPacket("0x" + s) == DecodeHexPacket(s)
  {
    CleanStripsOnePrefix(s);
  }

  /** Dropping "0x" and removing spaces treat a space after at least one
      character other than a lone "0" like no space at all. */
  lemma SpaceAfterFirstCharIgnored(a: string, b: string)
    requires a != [] && a != "0"
    ensures RemoveAll(TrimPrefix(a + " " + b, "0x"), ' ') == RemoveAll(TrimPrefix(a + b, "0x"), ' ')
  {
    var t, u := a + " " + b, a + b;
    assert RemoveAll(" ", ' ') == [];
    if |a| >= 2 {
      assert t[..2] == a[..2] == u[..2];
      var a' := TrimPrefix(a, "0x");
      assert TrimPrefix(t, "0x") == a' + " " + b;
      assert TrimPrefix(u, "0x") == a' + b;
      RemoveAllAppend(a' + " ", b, ' ');
      RemoveAllAppend(a', " ", ' ');
      RemoveAllAppend(a', b, ' ');
    } else {
      assert t[0] == a[0] == u[0] != '0';
      assert !HasPrefix(t, "0x") && !HasPrefix(u, "0x");
      RemoveAllAppend(a + " ", b, ' ');
      RemoveAllAppend(a, " ", ' ');
      RemoveAllAppend(a, b, ' ');
    }
  }

  /** A space anywhere inside the text, or at either end, is removed by
      cleaning, unless it splits the "0x" prefix itself (see `DecodeSplitPrefix`).
      Applied once per space, this removes every space of the text. */
  lemma CleanIgnoresInteriorSpace(a: string, b: string)
    requires a == [] || !IsSpace(a[0])
    requires b == [] || !IsSpace(b[|b| - 1])
    requires a != "0"
    ensures Clean(a + " " + b) == Clean(a + b)
  {
    if a == [] {
      assert a + " " + b == " " + b && a + b == b;
      LeadingSpaceTrimmed(b);
    } else if b == [] {
      assert a + " " + b == a + " " && a + b == a;
      TrailingSpaceTrimmed(a);
    } else {
      CleanInteriorSpaceMiddle(a, b);
    }
  }

  lemma CleanInteriorSpaceMiddle(a: string, b: string)
    requires a != [] && b != [] && !IsSpace(a[0]) && !IsSpace(b[|b| - 1])
    requires a != "0"
    ensures Clean(a + " " + b) == Clean(a + b)
  {
    var t, u := a + " " + b, a + b;
    assert t[0] == a[0] == u[0] && t[|t| - 1] == b[|b| - 1] == u[|u| - 1];
    TrimSpaceNoop(t);
    TrimSpaceNoop(u);
    SpaceAfterFirstCharIgnored(a, b);
  }

  lemma LeadingSpaceTrimmed(b: string)
    ensures TrimSpace(" " + b) == TrimSpace(b)
  {
    assert (" " + b)[0] == ' ' && (" " + b)[1..] == b;
    assert TrimLeftSpace(" " + b) == TrimLeftSpace(b);
  }

  lemma TrailingSpaceTrimmed(a: string)
    requires a != [] && !IsSpace(a[0])
    ensures TrimSpace(a + " ") == TrimSpace(a)
  {
    assert (a + " ")[0] == a[0];
    assert TrimLeftSpace(a + " ") == a + " ";
    assert TrimLeftSpace(a) == a;
    assert (a + " ")[|a|] == ' ' && (a + " ")[..|a|] == a;
    assert TrimRightSpace(a + " ") == TrimRightSpace(a);
  }

  /** The same, for the whole decoder. */
  lemma DecodeIgnoresInteriorSpace(a: string, b: string)
    requires a == [] || !IsSpace(a[0])
    requires b == [] || !IsSpace(b[|b| - 1])
    requires a != "0"
    ensures DecodeHexPacket(a + " " + b) == DecodeHexPacket(a + b)
  {
    CleanIgnoresInteriorSpace(a, b);
  }

  lemma HexCharIsNotX(c: char)
    requires IsHexChar(c)
    ensures c != 'x'
  {
  }

  lemma NoPrefixUnlessX(s: string)
    requires |s| >= 2 ==> s[1] != 'x'
    ensures !HasPrefix(s, "0x")
  {
    assert |s| >= 2 ==> s[..2][1] == s[1];
  }

  /** Text made only of hex digits is left as it is by cleaning. */
  lemma CleanHexText(s: string)
    requires forall i :: 0 <= i < |s| ==> IsHexChar(s[i])
    ensures Clean(s) == s
  {
    if |s| >= 2 {
      HexCharIsNotX(s[1]);
    }
    NoPrefixUnlessX(s);
    TrimSpaceNoop(s);
    assert ' ' !in s;
    RemoveAllAbsent(s, ' ');
  }

  /** Text that neither starts nor ends with white space, holds no ' ' and
      does not start with "0x" is left as it is by cleaning. */
  lemma CleanBareText(s: string)
    requires s == [] || (!IsSpace(s[0]) && !IsSpace(s[|s| - 1]))
    requires ' ' !in s && !HasPrefix(s, "0x")
    ensures Clean(s) == s
  {
    TrimSpaceNoop(s);
    RemoveAllAbsent(s, ' ');
  }

  /** Round trip: the lowercase hex text of any packet decodes back to exactly that packet. */
  lemma DecodeHexPacketRoundTrip(bs: seq<byte>)
    ensures DecodeHexPacket(EncodeToString(bs)) == Ok(bs)
  {
    DecodeHexPacketOfHexText(EncodeToString(bs));
    DecodeEncode(bs);
  }

  /** Hex digit text of even length is decoded by `hex.DecodeString` as it stands. */
  lemma DecodeHexPacketOfHexText(s: string)
    requires |s| % 2 == 0 && forall i :: 0 <= i < |s| ==> IsHexChar(s[i])
    ensures DecodeString(s).Ok? && DecodeHexPacket(s) == Ok(DecodeString(s).value)
  {
    CleanHexText(s);
    HexTextBytes(s);
    DecodeSucceeds(Bytes(s));
  }


  /** The five-byte packet "ffffffff00". */
  lemma DecodeFiveBytes()
    ensures DecodeHexPacket("ffffffff00") == Ok([0xFF, 0xFF, 0xFF, 0xFF, 0x00])
  {
    assert EncodeToString([0xFF, 0xFF, 0xFF, 0xFF, 0x00]) == "ffffffff00";
    DecodeHexPacketRoundTrip([0xFF, 0xFF, 0xFF, 0xFF, 0x00]);
  }

  /** The override given as the command's example decodes to exactly the default packet. */
  lemma DecodeDocumentedExample()
    ensures DecodeHexPacket("ffffffff54536f7572636520456e67696e6520517565727900") == Ok(DefaultPacket)
  {
    DefaultPacketText();
    DecodeHexPacketRoundTrip(DefaultPacket);
  }

  /** The lower-case hex text of the default packet, built five bytes at a time. */
  lemma DefaultPacketText()
    ensures EncodeToString(DefaultPacket) == "ffffffff54536f7572636520456e67696e6520517565727900"
  {
    Chunk1();
    Chunk2();
    Chunk3();
    Chunk4();
    Chunk5();
    DefaultPacketChunks();
    EncodeFive([0xFF, 0xFF, 0xFF, 0xFF, 0x54], [0x53, 0x6F, 0x75, 0x72, 0x63], [0x65, 0x20, 0x45, 0x6E, 0x67],
               [0x69, 0x6E, 0x65, 0x20, 0x51], [0x75, 0x65, 0x72, 0x79, 0x00]);
    DefaultTextChunks();
  }

  lemma DefaultPacketChunks()
    ensures DefaultPacket == [0xFF, 0xFF, 0xFF, 0xFF, 0x54] + ([0x53, 0x6F, 0x75, 0x72, 0x63] + ([0x65, 0x20, 0x45, 0x6E, 0x67]
                             + ([0x69, 0x6E, 0x65, 0x20, 0x51] + [0x75, 0x65, 0x72, 0x79, 0x00])))
  {
  }

  lemma DefaultTextChunks()
    ensures "ffffffff54536f7572636520456e67696e6520517565727900"
         == "ffffffff54" + ("536f757263" + ("6520456e67" + ("696e652051" + "7565727900")))
  {
  }

  lemma EncodeFive(c1: seq<byte>, c2: seq<byte>, c3: seq<byte>, c4: seq<byte>, c5: seq<byte>)
    ensures EncodeToString(c1 + (c2 + (c3 + (c4 + c5))))
         == EncodeToString(c1) + (EncodeToString(c2) + (EncodeToString(c3) + (EncodeToString(c4) + EncodeToString(c5))))
  {
    EncodeAppend(c4, c5);
    EncodeAppend(c3, c4 + c5);
    EncodeAppend(c2, c3 + (c4 + c5));
    EncodeAppend(c1, c2 + (c3 + (c4 + c5)));
  }

  lemma Chunk1()
    ensures EncodeToString([0xFF, 0xFF, 0xFF, 0xFF, 0x54]) == "ffffffff54"
  {
  }

  lemma Chunk2()
    ensures EncodeToString([0x53, 0x6F, 0x75, 0x72, 0x63]) == "536f757263"
  {
  }

  lemma Chunk3()
    ensures EncodeToString([0x65, 0x20, 0x45, 0x6E, 0x67]) == "6520456e67"
  {
  }

  lemma Chunk4()
    ensures EncodeToString([0x69, 0x6E, 0x65, 0x20, 0x51]) == "696e652051"
  {
  }

  lemma Chunk5()
    ensures EncodeToString([0x75, 0x65, 0x72, 0x79, 0x00]) == "7565727900"
  {
  }

  /** An odd length is rejected before any digit is looked at, even when none is a hex digit. */
  lemma DecodeOddLength()
    ensures DecodeHexPacket("fff") == Err(OddLength)
    ensures DecodeHexPacket("xyz") == Err(OddLength)
  {
    CleanBareText("fff");
    CleanBareText("xyz");
  }

  /** Surrounding white space, the "0x" prefix and interior spaces are all cleaned away. */
  lemma DecodeNormalises()
    ensures DecodeHexPacket(" 0xff ff ") == DecodeHexPacket("ffff") == Ok([0xFF, 0xFF])
  {
    NormaliseSurrounding();
    NormalisePrefix();
    NormaliseInterior();
    DecodeTwoBytes();
  }

  lemma DecodeTwoBytes()
    ensures DecodeHexPacket("ffff") == Ok([0xFF, 0xFF])
  {
    assert EncodeToString([0xFF, 0xFF]) == "ffff";
    DecodeHexPacketRoundTrip([0xFF, 0xFF]);
  }

  lemma NormaliseSurrounding()
    ensures DecodeHexPacket(" 0xff ff ") == DecodeHexPacket("0xff ff")
  {
    assert " 0xff ff " == [' '] + "0xff ff" + [' '];
    DecodeIgnoresSurroundingSpace([' '], "0xff ff", [' ']);
  }

  lemma NormalisePrefix()
    ensures DecodeHexPacket("0xff ff") == DecodeHexPacket("ff ff")
  {
    assert "0xff ff" == "0x" + "ff ff";
    assert "ff ff"[..2] == "ff";
    DecodeStripsOnePrefix("ff ff");
  }

  lemma NormaliseInterior()
    ensures DecodeHexPacket("ff ff") == DecodeHexPacket("ffff")
  {
    assert "ff ff" == "ff" + " " + "ff" && "ffff" == "ff" + "ff";
    DecodeIgnoresInteriorSpace("ff", "ff");
  }

  /** Every space is removed, one at a time: "ff ff ff" decodes like "ffffff". */
  lemma DecodeSeveralSpaces()
    ensures DecodeHexPacket("ff ff ff") == DecodeHexPacket("ffffff")
  {
    assert "ff ff ff" == "ff" + " " + "ff ff" && "ff" + "ff ff" == "ffff ff";
    DecodeIgnoresInteriorSpace("ff", "ff ff");
    assert "ffff ff" == "ffff" + " " + "ff" && "ffff" + "ff" == "ffffff";
    DecodeIgnoresInteriorSpace("ffff", "ff");
  }

  /** Only a lower-case "0x" is a prefix: "0X" stays, and its 'X' is the bad byte. */
  lemma DecodeUpperPrefix()
    ensures DecodeHexPacket("0Xff") == Err(BadHex(InvalidByte('X' as byte)))
  {
    assert "0Xff"[..2] == "0X";
    CleanBareText("0Xff");
    assert Bytes("0Xff") == [0x30, 0x58, 0x66, 0x66];
  }

  /** A tab inside the text is not removed; it is reported as a bad byte. */
  lemma DecodeInteriorTab()
    ensures DecodeHexPacket("ff\tf") == Err(BadHex(InvalidByte(0x09)))
  {
    CleanBareText("ff\tf");
    assert Bytes("ff\tf") == [0x66, 0x66, 0x09, 0x66];
  }

  /** The prefix is dropped before spaces are removed, so "0 x" is not a prefix. */
  lemma DecodeSplitPrefix()
    ensures DecodeHexPacket("0 xff") == Err(BadHex(InvalidByte('x' as byte)))
  {
    TrimSpaceNoop("0 xff");
    assert "0 xff"[..2] == "0 ";
    assert !HasPrefix("0 xff", "0x");
    assert "0 xff" == "0" + " " + "xff";
    RemoveAllAppend("0" + " ", "xff", ' ');
    RemoveAllAppend("0", " ", ' ');
    RemoveAllAbsent("xff", ' ');
    assert Clean("0 xff") == "0xff";
    XBadByte();
  }

  /** Only one "0x" is ever dropped: the second one's 'x' is the bad byte. */
  lemma DecodeDoublePrefix()
    ensures DecodeHexPacket("0x0xff") == Err(BadHex(InvalidByte('x' as byte)))
  {
    TrimSpaceNoop("0x0xff");
    assert "0x0xff"[..2] == "0x" && "0x0xff"[2..] == "0xff";
    RemoveAllAbsent("0xff", ' ');
    assert Clean("0x0xff") == "0xff";
    XBadByte();
  }

  lemma XBadByte()
    ensures |Bytes("0xff")| == 4
    ensures DecodeString("0xff") == Err(InvalidByte('x' as byte))
  {
    assert Bytes("0xff") == [0x30, 0x78, 0x66, 0x66];
  }

  /** A bare "0x" cleans to nothing and decodes to an empty packet. */
  lemma DecodeBarePrefix()
    ensures !AllSpace("0x")
    ensures DecodeHexPacket("0x") == Ok([])
  {
    assert !IsSpace("0x"[0]);
    TrimSpaceNoop("0x");
    assert "0x"[..2] == "0x" && "0x"[2..] == [];
    assert Clean("0x") == [];
  }

  // ---------------------------------------------------------------------------
  // RunE: packet selection, validation, building the heartbeat, sending it
  // ---------------------------------------------------------------------------

  /** The command's flags as cobra leaves them: `--host`, `--port`, `--timeout`,
      `--recv-response` and `--packet-hex`. Go's `int` is 64 bits wide here. */
  datatype Flags = Flags(host: string, port: int64, timeoutSec: int64, recvResponse: bool, packetHex: string)

  /** The defaults the command registers for its flags. */
  const DefaultFlags: Flags := Flags("127.0.0.1", 27015, 2, true, "")

  /** `internal.Heartbeat`; `timeout` is a `time.Duration`, an `int64` count of nanoseconds. */
  datatype Heartbeat = Heartbeat(packet: seq<byte>, port: int64, host: string, recvResponse: bool, timeout: int64)

  /** The errors `RunE` returns before anything is sent, one per check. */
  datatype ConfigError =
    | InvalidPacketHex(cause: PacketError)
    | EmptyHost
    | PortOutOfRange
    | NonPositiveTimeout
    | EmptyPacket

  /** The packet `RunE` sends: a copy of the default unless the override holds
      something other than white space, in which case the decoded override. */
  function SelectPacket(packetHex: string): (r: Result<seq<byte>, PacketError>)
    ensures AllSpace(packetHex) ==> r == Ok(DefaultPacket)
    ensures !AllSpace(packetHex) ==> r == DecodeHexPacket(packetHex)
  {
    TrimSpaceBlank(packetHex);
    if TrimSpace(packetHex) != [] then DecodeHexPacket(packetHex) else Ok(DefaultPacket)
  }

  const NanosPerSecond: int := 1_000_000_000

  /** The largest `--timeout` whose nanosecond count fits in a `time.Duration`. */
  const MaxTimeoutSec: int := Int64Max / NanosPerSecond

  /** `time.Duration(sec) * time.Second`: the product, wrapped to 64 bits as Go does. */
  function ToDuration(sec: int64): (d: int64)
    ensures -MaxTimeoutSec <= sec as int <= MaxTimeoutSec ==> d as int == sec as int * NanosPerSecond
    ensures 0 < sec as int <= MaxTimeoutSec ==> d > 0
    ensures (d as int - sec as int * NanosPerSecond) % 0x1_0000_0000_0000_0000 == 0
  {
    Wrap64(sec as int * NanosPerSecond)
  }

  /** Every check of `RunE` that the flags fail, in the order `RunE` makes
      them: the override is decoded first and the packet length is checked
      last, so the empty-packet check fails only when the override decodes to
      no bytes at all. */
  function Failures(f: Flags): seq<ConfigError> {
    FailuresGiven(f, SelectPacket(f.packetHex))
  }

  /** The failing checks, given the outcome of packet selection. */
  function FailuresGiven(f: Flags, selected: Result<seq<byte>, PacketError>): seq<ConfigError> {
    (if selected.Err? then [InvalidPacketHex(selected.error)] else [])
    + (if AllSpace(f.host) then [EmptyHost] else [])
    + (if f.port < 1 || f.port > 65535 then [PortOutOfRange] else [])
    + (if f.timeoutSec <= 0 then [NonPositiveTimeout] else [])
    + (if selected.Ok? && selected.value == [] then [EmptyPacket] else [])
  }

  /** `RunE` up to the call of `internal.Send`: it fails exactly when some
      check fails, and then with the first failing check; on success the
      heartbeat carries the flags unchanged, the selected packet and the
      timeout in nanoseconds. */
  function Validate(f: Flags): (r: Result<Heartbeat, ConfigError>)
    ensures r.Err? <==> Failures(f) != []
    ensures r.Err? ==> r.error == Failures(f)[0]
    ensures r.Ok? ==> SelectPacket(f.packetHex).Ok? && r.value.packet == SelectPacket(f.packetHex).value
    ensures r.Ok? ==> r.value.host == f.host && r.value.port == f.port && r.value.recvResponse == f.recvResponse
    ensures r.Ok? ==> r.value.timeout == ToDuration(f.timeoutSec)
    ensures r.Ok? ==> r.value.packet != [] && !AllSpace(r.value.host) && 1 <= r.value.port <= 65535
    ensures r.Ok? && f.timeoutSec as int <= MaxTimeoutSec ==> r.value.timeout > 0
  {
    Check(f, SelectPacket(f.packetHex))
  }

  /** The checks of `RunE` in their order, given the outcome of packet selection. */
  function Check(f: Flags, selected: Result<seq<byte>, PacketError>): (r: Result<Heartbeat, ConfigError>)
    ensures r.Err? <==> FailuresGiven(f, selected) != []
    ensures r.Err? ==> r.error == FailuresGiven(f, selected)[0]
    ensures r.Ok? ==> selected.Ok? && r.value.packet == selected.value
    ensures r.Ok? ==> r.value.host == f.host && r.value.port == f.port && r.value.recvResponse == f.recvResponse
    ensures r.Ok? ==> r.value.timeout == ToDuration(f.timeoutSec)
    ensures r.Ok? ==> r.value.packet != [] && !AllSpace(r.value.host) && 1 <= r.value.port <= 65535
    ensures r.Ok? && f.timeoutSec as int <= MaxTimeoutSec ==> r.value.timeout > 0
  {
    match selected
    case Err(e) => Err(InvalidPacketHex(e))
    case Ok(packet) =>
      TrimSpaceBlank(f.host);
      if TrimSpace(f.host) == [] then Err(EmptyHost)
      else if f.port < 1 || f.port > 65535 then Err(PortOutOfRange)
      else if f.timeoutSec <= 0 then Err(NonPositiveTimeout)
      else if |packet| == 0 then Err(EmptyPacket)
      else Ok(Heartbeat(packet, f.port, f.host, f.recvResponse, ToDuration(f.timeoutSec)))
  }

  /** What `RunE` returns: a check's error, or the error `internal.Send` returned, unchanged. */
  datatype RunError<+E> = Config(check: ConfigError) | Network(err: E)

  /** `RunE`, with `internal.Send` passed in as `send` (`None` for a nil error).
      Nothing is sent unless every check passes, and then only the validated heartbeat. */
  function Run<E(==)>(f: Flags, send: Heartbeat -> Option<E>): (r: Option<RunError<E>>)
    ensures Failures(f) != [] ==> r == Some(Config(Failures(f)[0]))
    ensures r.Some? && r.value.Network? ==> Failures(f) == [] && send(Validate(f).value) == Some(r.value.err)
    ensures r == None <==> Failures(f) == [] && send(Validate(f).value) == None
    ensures Failures(f) == [] && send(Validate(f).value).Some? ==> r == Some(Network(send(Validate(f).value).value))
  {
    match Validate(f)
    case Err(e) => Some(Config(e))
    case Ok(hb) =>
      match send(hb)
      case Some(err) => Some(Network(err))
      case None => None
  }

  /** Hex text holds no white space. */
  lemma HexTextNotBlank(bs: seq<byte>)
    requires bs != []
    ensures !AllSpace(EncodeToString(bs))
  {
    var s := EncodeToString(bs);
    assert IsHexChar(s[0]);
  }

  /** A blank override keeps the default packet; the hex text of any packet,
      with any white space around it, selects exactly that packet. */
  lemma PacketSelection(w1: string, bs: seq<byte>, w2: string)
    requires AllSpace(w1) && AllSpace(w2)
    ensures SelectPacket(w1) == Ok(DefaultPacket)
    ensures bs != [] ==> SelectPacket(w1 + EncodeToString(bs) + w2) == Ok(bs)
  {
    if bs != [] {
      var s := EncodeToString(bs);
      HexTextNotBlank(bs);
      TrimSpaceIgnoresSurroundingSpace(w1, s, w2);
      DecodeIgnoresSurroundingSpace(w1, s, w2);
      DecodeHexPacketRoundTrip(bs);
    }
  }

  /** An override that is not blank but decodes to no bytes does not fall back
      to the default packet: with otherwise valid flags the command stops at the
      packet-length check. */
  lemma EmptyOverride(f: Flags)
    requires !AllSpace(f.packetHex) && DecodeHexPacket(f.packetHex) == Ok([])
    requires !AllSpace(f.host) && 1 <= f.port <= 65535 && f.timeoutSec > 0
    ensures Validate(f) == Err(EmptyPacket)
  {
    assert SelectPacket(f.packetHex) == Ok([]);
  }

  /** A bare "0x" override is such an override. */
  lemma BarePrefixOverride(f: Flags)
    requires f.packetHex == "0x"
    requires !AllSpace(f.host) && 1 <= f.port <= 65535 && f.timeoutSec > 0
    ensures Validate(f) == Err(EmptyPacket)
  {
    DecodeBarePrefix();
    EmptyOverride(f);
  }

  /** The command run with its defaults sends the default packet to 127.0.0.1:27015 with a two-second timeout. */
  lemma DefaultInvocation()
    ensures Validate(DefaultFlags) == Ok(Heartbeat(DefaultPacket, 27015, "127.0.0.1", true, 2_000_000_000))
  {
    assert "127.0.0.1"[0] == '1';
    assert !AllSpace("127.0.0.1");
  }

  /** Go's duration arithmetic wraps: a timeout of MaxTimeoutSec + 1 seconds passes
      the positivity check and yields a negative `time.Duration`. */
  lemma TimeoutOverflow()
    ensures MaxTimeoutSec == 9_223_372_036
    ensures ToDuration(9_223_372_037) == -9_223_372_036_709_551_616
    ensures Validate(DefaultFlags.(timeoutSec := 9_223_372_037)).Ok?
    ensures Validate(DefaultFlags.(timeoutSec := 9_223_372_037)).value.timeout < 0
  {
    assert "127.0.0.1"[0] == '1';
    assert !AllSpace("127.0.0.1");
  }

  /** Every timeout from `MaxTimeoutSec` + 1 up to 18446744073 seconds (the
      largest whose nanosecond count stays below 2^64) wraps to a negative
      duration, exactly 2^64 below the true count. */
  lemma TimeoutNegativeRange(sec: int64)
    requires MaxTimeoutSec < sec as int <= 18_446_744_073
    ensures ToDuration(sec) as int == sec as int * NanosPerSecond - 0x1_0000_0000_0000_0000
    ensures ToDuration(sec) < 0
  {
    var x := sec as int * NanosPerSecond;
    var d := ToDuration(sec) as int;
    assert Int64Max < x < 0x1_0000_0000_0000_0000;
    var k := (d - x) / 0x1_0000_0000_0000_0000;
    assert d - x == k * 0x1_0000_0000_0000_0000;
    assert k == -1;
  }

  /** Beyond that range the duration wraps again and can be positive: a
      timeout of 18446744074 seconds passes validation with a 0.29-second duration. */
  lemma TimeoutWrapsPositive()
    ensures ToDuration(18_446_744_074) == 290_448_384
    ensures Validate(DefaultFlags.(timeoutSec := 18_446_744_074)).Ok?
    ensures Validate(DefaultFlags.(timeoutSec := 18_446_744_074)).value.timeout == 290_448_384
  {
    assert "127.0.0.1"[0] == '1';
    assert !AllSpace("127.0.0.1");
  }
}
