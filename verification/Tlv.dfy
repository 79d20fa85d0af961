/** Type-length-value messages: how one is encoded, and how a buffer of them is split and searched. */
module Tlv {
  import opened Bytes
  import opened Codec
  import opened Wrappers

  // SRDE/intel-messages.h
  const TLV_CIPHER_TEXT: Byte := 0
  const TLV_BLOCK_CIPHER_TEXT: Byte := 1
  const TLV_BLOCK_CIPHER_INFO: Byte := 2
  const TLV_MESSAGE_AUTHENTICATION_CODE: Byte := 3
  const TLV_NONCE: Byte := 4
  const TLV_PS_ID: Byte := 9
  const TLV_ES_SELECTOR: Byte := 17
  const TLV_QUOTE_SIG: Byte := 20
  const TLV_PLATFORM_INFO: Byte := 24
  const TLV_SE_REPORT: Byte := 26

  const SHORT_HEADER: nat := 4  // sizeof(struct TLVshort)
  const LONG_HEADER: nat := 6   // sizeof(struct TLVlong)

  datatype Message = Message(typ: Byte, version: Byte, payload: seq<Byte>)

  predicate NeedsLong(m: Message) {
    |m.payload| > 0xFFFF || m.typ == TLV_QUOTE_SIG || m.typ == TLV_SE_REPORT
  }

  /** The header of a message. The long length is the low 32 bits of the payload size. */
  function HeaderBytes(m: Message): (s: seq<Byte>)
    ensures |s| == if NeedsLong(m) then LONG_HEADER else SHORT_HEADER
  {
    if NeedsLong(m) then [if m.typ < 128 then m.typ + 128 else m.typ, m.version] + ToBE(|m.payload| % U32, 4)
    else [m.typ, m.version] + ToBE(|m.payload|, 2)
  }

  /** `_encode_message`: the bytes it appends. */
  function Encode(m: Message): (s: seq<Byte>)
    ensures |s| == (if NeedsLong(m) then LONG_HEADER else SHORT_HEADER) + |m.payload|
  {
    HeaderBytes(m) + m.payload
  }

  function EncodeAll(ms: seq<Message>): seq<Byte> {
    if ms == [] then [] else Encode(ms[0]) + EncodeAll(ms[1..])
  }

  function Encodings(ms: seq<Message>): seq<seq<Byte>> {
    seq(|ms|, i requires 0 <= i < |ms| => Encode(ms[i]))
  }

  // --- Reading ---

  predicate IsLong(s: seq<Byte>)
    requires s != []
  {
    s[0] >= 128
  }

  function HeaderSize(s: seq<Byte>): nat
    requires s != []
  {
    if IsLong(s) then LONG_HEADER else SHORT_HEADER
  }

  /** A complete header stands at the front. */
  predicate HasHeader(s: seq<Byte>) {
    s != [] && HeaderSize(s) <= |s|
  }

  function PayloadSize(s: seq<Byte>): nat
    requires HasHeader(s)
  {
    FromBE(s[2..HeaderSize(s)])
  }

  /** A complete message stands at the front: reading it stays inside the buffer. */
  predicate HasMessage(s: seq<Byte>) {
    HasHeader(s) && HeaderSize(s) + PayloadSize(s) <= |s|
  }

  function FirstSize(s: seq<Byte>): (n: nat)
    requires HasHeader(s)
    ensures n >= SHORT_HEADER
  {
    HeaderSize(s) + PayloadSize(s)
  }

  /** The messages of a buffer, each with its header; None if one runs past the end of the buffer. */
  function Split(s: seq<Byte>): Option<seq<seq<Byte>>>
  {
    if s == [] then Some([])
    else if !HasMessage(s) then None
    else match Split(s[FirstSize(s)..])
      case None => None
      case Some(rest) => Some([s[..FirstSize(s)]] + rest)
  }

  /** What the searches take out of one split message. */
  function Parse(s: seq<Byte>): Message
    requires HasMessage(s)
  {
    Message(if IsLong(s) then s[0] - 128 else s[0], s[1], s[HeaderSize(s)..HeaderSize(s) + PayloadSize(s)])
  }

  /** A message whose type and length the header can carry. */
  predicate Encodable(m: Message) {
    m.typ < 128 && |m.payload| < U32
  }

  /** Where the pieces of an encoded message stand. */
  lemma EncodedPieces(m: Message, rest: seq<Byte>, width: nat)
    requires Encodable(m) && width == if NeedsLong(m) then 4 else 2
    ensures var s := Encode(m) + rest;
            && s[0] == (if NeedsLong(m) then m.typ + 128 else m.typ) && s[1] == m.version
            && s[2..2 + width] == ToBE(|m.payload|, width)
            && s[2 + width..2 + width + |m.payload|] == m.payload
            && s[..2 + width + |m.payload|] == Encode(m)
  {
  }

  lemma SizeField(m: Message, width: nat)
    requires Encodable(m) && width == if NeedsLong(m) then 4 else 2
    ensures FromBE(ToBE(|m.payload|, width)) == |m.payload|
  {
    Pow256Widths();
    FromToBE(|m.payload|, width);
  }

  lemma HeaderOf(m: Message, rest: seq<Byte>)
    requires Encodable(m)
    ensures var s := Encode(m) + rest;
            HasMessage(s) && FirstSize(s) == |Encode(m)| && s[..FirstSize(s)] == Encode(m) && Parse(s) == m
  {
    var width := if NeedsLong(m) then 4 else 2;
    EncodedPieces(m, rest, width);
    SizeField(m, width);
  }

  lemma EncodingsStep(ms: seq<Message>)
    requires ms != []
    ensures Encodings(ms) == [Encode(ms[0])] + Encodings(ms[1..])
  {
  }

  lemma SplitStep(s: seq<Byte>)
    requires HasMessage(s)
    ensures Split(s) == match Split(s[FirstSize(s)..])
                        case None => None
                        case Some(parts) => Some([s[..FirstSize(s)]] + parts)
  {
  }

  lemma SplitSome(s: seq<Byte>)
    requires s != [] && Split(s).Some?
    ensures HasMessage(s) && Split(s[FirstSize(s)..]).Some?
    ensures Split(s).value == [s[..FirstSize(s)]] + Split(s[FirstSize(s)..]).value
  {
  }

  /** One step of splitting, inside a buffer. */
  lemma SplitInside(msg: seq<Byte>, mp: nat, headerSize: nat) returns (step: nat)
    requires mp < |msg| && Split(msg[mp..]).Some? && headerSize == if msg[mp] >= 128 then LONG_HEADER else SHORT_HEADER
    ensures mp + headerSize <= |msg| && step == headerSize + FromBE(msg[mp + 2..mp + headerSize])
    ensures 0 < step && mp + step <= |msg| && Split(msg[mp + step..]).Some?
    ensures Split(msg[mp..]).value == [msg[mp..mp + step]] + Split(msg[mp + step..]).value
  {
    hide Split, FromBE;
    var tail := msg[mp..];
    SplitSome(tail);
    step := FirstSize(tail);
    SliceOfSlice(msg, mp, |msg|, 2, headerSize);
    SliceOfSlice(msg, mp, |msg|, 0, step);
    assert msg[mp..|msg|] == tail && tail[2..headerSize] == msg[mp + 2..mp + headerSize];
    assert tail[0..step] == tail[..step] == msg[mp..mp + step] && tail[step..] == msg[mp + step..];
  }

  lemma SplitEmpty()
    ensures Split([]) == Some([])
  {
  }

  /** Splitting any concatenation of encoded messages gives back the messages, in order. */
  lemma {:induction false} SplitEncodeAll(ms: seq<Message>, s: seq<Byte>, parts: Option<seq<seq<Byte>>>)
    requires (forall i :: 0 <= i < |ms| ==> Encodable(ms[i])) && s == EncodeAll(ms) && parts == Split(s)
    ensures parts == Some(Encodings(ms))
    decreases |ms|
  {
    if ms == [] {
      assert Encodings(ms) == [];
    } else {
      var first, rest := Encode(ms[0]), EncodeAll(ms[1..]);
      SplitEncodeAll(ms[1..], rest, Split(rest));
      HeaderOf(ms[0], rest);
      assert s == first + rest;
      SplitStep(s);
      assert s[FirstSize(s)..] == rest;
      EncodingsStep(ms);
    }
  }

  lemma ParseEncode(m: Message)
    requires Encodable(m)
    ensures HasMessage(Encode(m)) && Parse(Encode(m)) == m
  {
    HeaderOf(m, []);
    assert Encode(m) + [] == Encode(m);
  }

  /** A message comes back as itself exactly when its type is below 128 and its size below 2^32. */
  lemma RoundTripExactly(m: Message)
    ensures (HasMessage(Encode(m)) && FirstSize(Encode(m)) == |Encode(m)| && Parse(Encode(m)) == m) <==> Encodable(m)
  {
    var s := Encode(m);
    if Encodable(m) {
      HeaderOf(m, []);
      assert s + [] == s;
    } else if m.typ < 128 {
      // a payload of 2^32 bytes or more: the header carries its size modulo 2^32
      ToFromBE(s[2..6]);
      Pow256Widths();
    }
  }

  /**
   * The bytes of an encoded message: type, version, and the size with its most significant byte first, in four bytes
   * behind a marked type exactly for a large payload, a quote signature or a report, and in two otherwise.
   */
  lemma EncodedLayout(m: Message, s: seq<Byte>, a: nat, b: nat, c: nat, d: nat)
    requires Encodable(m) && s == Encode(m)
    requires (a, b) == (s[2], s[3]) && (|s| >= 6 ==> (c, d) == (s[4], s[5]))
    ensures var n := |m.payload|;
            if n > 65535 || m.typ == 20 || m.typ == 26 then
              && |s| == 6 + n && s[0] == 128 + m.typ && s[1] == m.version && s[6..] == m.payload
              && n == 0x100_0000 * a + 0x1_0000 * b + 0x100 * c + d
            else
              && |s| == 4 + n && s[0] == m.typ && s[1] == m.version && s[4..] == m.payload
              && n == 0x100 * a + b
  {
    hide ToBE, FromBE;
    var width := if NeedsLong(m) then 4 else 2;
    assert s + [] == s;
    EncodedPieces(m, [], width);
    SizeField(m, width);
    if NeedsLong(m) {
      FourBytes(s[2..6], a, b, c, d);
    } else {
      TwoBytes(s[2..4], a, b);
    }
  }

  // --- What splitting keeps ---

  function Concat(parts: seq<seq<Byte>>): seq<Byte> {
    if parts == [] then [] else parts[0] + Concat(parts[1..])
  }

  lemma {:induction false} SplitConcat(s: seq<Byte>)
    requires Split(s).Some?
    ensures Concat(Split(s).value) == s
    ensures forall i :: 0 <= i < |Split(s).value| ==> HasMessage(Split(s).value[i])
    decreases |s|
  {
    if s != [] {
      var first, rest := s[..FirstSize(s)], s[FirstSize(s)..];
      SplitConcat(rest);
      assert Split(s).value == [first] + Split(rest).value;
      assert Split(s).value[1..] == Split(rest).value;
      assert first[2..HeaderSize(s)] == s[2..HeaderSize(s)];
      assert s == first + rest;
    }
  }

  // --- Searching ---

  predicate Matches(part: seq<Byte>, typ: Byte, version: Byte) {
    HasMessage(part) && Parse(part).typ == typ && Parse(part).version == version
  }

  /** The payload of the first part of the type and version, if there is one. */
  function FindFirst(parts: seq<seq<Byte>>, typ: Byte, version: Byte): Option<seq<Byte>> {
    if parts == [] then None
    else if Matches(parts[0], typ, version) then Some(Parse(parts[0]).payload)
    else FindFirst(parts[1..], typ, version)
  }

  lemma {:induction false} FindFirstAt(parts: seq<seq<Byte>>, typ: Byte, version: Byte, k: nat)
    requires k <= |parts| && forall i :: 0 <= i < k ==> !Matches(parts[i], typ, version)
    ensures FindFirst(parts, typ, version) == FindFirst(parts[k..], typ, version)
  {
    if k > 0 {
      FindFirstAt(parts[1..], typ, version, k - 1);
      assert parts[1..][k - 1..] == parts[k..];
    } else {
      assert parts[0..] == parts;
    }
  }

  /** Among encoded messages, the search finds the payload of the first message of that type and version. */
  lemma FindFirstEncoded(ms: seq<Message>, parts: seq<seq<Byte>>, k: nat)
    requires forall i :: 0 <= i < |ms| ==> Encodable(ms[i])
    requires parts == Encodings(ms)
    requires k < |ms| && forall i :: 0 <= i < k ==> !(ms[i].typ == ms[k].typ && ms[i].version == ms[k].version)
    ensures FindFirst(parts, ms[k].typ, ms[k].version) == Some(ms[k].payload)
  {
    forall i | 0 <= i <= k ensures HasMessage(parts[i]) && Parse(parts[i]) == ms[i] {
      ParseEncode(ms[i]);
    }
    FindFirstAt(parts, ms[k].typ, ms[k].version, k);
  }

  /** And finds nothing if there is none. */
  lemma {:induction false} FindNothing(ms: seq<Message>, parts: seq<seq<Byte>>, typ: Byte, version: Byte)
    requires forall i :: 0 <= i < |ms| ==> Encodable(ms[i])
    requires parts == Encodings(ms)
    requires forall i :: 0 <= i < |ms| ==> !(ms[i].typ == typ && ms[i].version == version)
    ensures FindFirst(parts, typ, version) == None
  {
    forall i | 0 <= i < |ms| ensures !Matches(parts[i], typ, version) {
      ParseEncode(ms[i]);
    }
    FindFirstAt(parts, typ, version, |parts|);
  }
}
