/** The provisioning message object as a state machine: what each call of SRDE/SRDEmessage.c does to the state. */
module Provisioning {
  import opened Bytes
  import opened Codec
  import opened Tlv
  import opened Wrappers

  datatype Phase = INIT | REQUEST | RESPONSE

  const XID_SIZE: nat := 8
  const REQUEST_HEADER: nat := 15   // sizeof(struct provision_request_header)
  const RESPONSE_HEADER: nat := 19  // sizeof(struct provision_response_header)
  const RESPONSE_SIZE_AT: nat := 15 // where its size field is
  const PEK_PUB: Byte := 3

  datatype Request = Request(protocol: Byte, version: Byte, xid: seq<Byte>, typ: Byte)

  /** The request header as bytes, with a payload size filled in. */
  function Header(r: Request, size: nat): seq<Byte> {
    [r.protocol, r.version] + r.xid + [r.typ] + ToBE(size % U32, 4)
  }

  /** Two sizes give the same header exactly when they agree modulo 2^32. */
  lemma HeaderSizeField(r: Request, a: nat, b: nat)
    ensures Header(r, a) == Header(r, b) <==> a % U32 == b % U32
  {
    Pow256Widths();
    FromToBE(a % U32, 4);
    FromToBE(b % U32, 4);
    var n := 3 + |r.xid|;
    assert Header(r, a)[n..] == ToBE(a % U32, 4) && Header(r, b)[n..] == ToBE(b % U32, 4);
  }

  datatype State = State(poisoned: bool, phase: Phase, request: Request, response: seq<Byte>,
                         size: nat, msg: seq<Byte>, messages: seq<seq<Byte>>)

  const BLANK: State :=
    State(false, INIT, Request(0, 0, Zeros(XID_SIZE), 0), Zeros(RESPONSE_HEADER), 0, [], [])

  function Poison(s: State): State {
    s.(poisoned := true)
  }

  function Append(s: State, m: Message): State {
    s.(msg := s.msg + Tlv.Encode(m))
  }

  // --- Building requests ---

  function InitRequest(s: State, protocol: Byte, typ: Byte, version: Byte, xid: seq<Byte>): State {
    if s.poisoned then s else s.(phase := REQUEST, request := Request(protocol, version, xid, typ))
  }

  /** No state check: the selector is appended in any phase. */
  function EncodeEsRequest(s: State, typ: Byte, selector: Byte): (State, bool) {
    if s.poisoned then (s, false)
    else
      var msg := s.msg + Tlv.Encode(Message(TLV_ES_SELECTOR, 1, [typ, selector]));
      (s.(msg := msg, size := (s.size + |msg|) % U32), true)
  }

  datatype Sealed = Sealed(cipher: seq<Byte>, tag: seq<Byte>)

  /** Authenticated encryption: key, initialization vector, plaintext, additional data. */
  type Seal = (seq<Byte>, seq<Byte>, seq<Byte>, seq<Byte>) -> Option<Sealed>

  /** AES-GCM keeps the length of the text and makes a 16-byte tag. */
  ghost predicate KeepsLength(seal: Seal) {
    forall k, iv, p, a :: seal(k, iv, p, a).Some? ==>
      |seal(k, iv, p, a).value.cipher| == |p| && |seal(k, iv, p, a).value.tag| == 16
  }

  /** What message 2 is built from; None stands for a call that fails. */
  datatype Inputs2 = Inputs2(sk: seq<Byte>, psId: seq<Byte>, rsa: seq<Byte> -> Option<seq<Byte>>,
                             ppid: Option<seq<Byte>>, platformInfo: seq<Byte>,
                             cmac: (seq<Byte>, seq<Byte>) -> Option<seq<Byte>>, iv: seq<Byte>, seal: Seal)

  function KeyMessages(x: Inputs2): seq<Byte> {
    Tlv.Encode(Message(TLV_BLOCK_CIPHER_INFO, 1, x.sk)) + Tlv.Encode(Message(TLV_PS_ID, 1, x.psId))
  }

  function PlatformMessages(x: Inputs2, ppid: seq<Byte>): seq<Byte> {
    Tlv.Encode(Message(TLV_CIPHER_TEXT, 1, [PEK_PUB] + ppid))
    + Tlv.Encode(Message(TLV_PLATFORM_INFO, 1, x.platformInfo))
  }

  /** The payload size put in the authenticated header before the text is encrypted. */
  function PredictedSize(msg: seq<Byte>, iv: seq<Byte>, text: seq<Byte>): nat {
    |msg| + (SHORT_HEADER + |iv| + |text|) + (SHORT_HEADER + 16)
  }

  /** The encrypted text and its tag, as two more messages. */
  function AppendSealed(s: State, iv: seq<Byte>, sealed: Sealed): State {
    Append(Append(s, Message(TLV_BLOCK_CIPHER_TEXT, 1, iv + sealed.cipher)),
           Message(TLV_MESSAGE_AUTHENTICATION_CODE, 1, sealed.tag))
  }

  /** The additional data authenticated with message 2. */
  function AuthenticatedHeader2(s: State, x: Inputs2, key: seq<Byte>, ppid: seq<Byte>): seq<Byte> {
    Header(s.request,
           PredictedSize(Append(s, Message(TLV_CIPHER_TEXT, 1, [PEK_PUB] + key)).msg, x.iv, PlatformMessages(x, ppid)))
  }

  function EncodeMessage2(s: State, x: Inputs2): (State, bool) {
    if s.poisoned || s.phase != REQUEST then (Poison(s), false)
    else
      match x.rsa(KeyMessages(x))
      case None => (Poison(s), false)
      case Some(key) =>
        var s1 := Append(s, Message(TLV_CIPHER_TEXT, 1, [PEK_PUB] + key));
        if x.ppid.None? then (Poison(s1), false)
        else
          match x.cmac(x.sk, s.request.xid)
          case None => (Poison(s1), false)
          case Some(mac) =>
            match x.seal(mac, x.iv, PlatformMessages(x, x.ppid.value), AuthenticatedHeader2(s, x, key, x.ppid.value))
            case None => (Poison(s1), false)
            case Some(sealed) =>
              var s2 := AppendSealed(s1, x.iv, sealed);
              (s2.(size := |s2.msg| % U32), true)
  }

  /** What message 3 is built from. */
  datatype Inputs3 = Inputs3(nonce: seq<Byte>, argumentsPoisoned: bool, joinProof: bool,
                             field1: seq<Byte>, field1Mac: seq<Byte>, n2: seq<Byte>, pwk2: seq<Byte>,
                             report: seq<Byte>, reportSig: seq<Byte>, ek2: seq<Byte>, iv: Option<seq<Byte>>,
                             seal: Seal, epidGenerated: bool, epidIv: seq<Byte>, epidMac: seq<Byte>,
                             epidOutputSize: nat, epidSig: seq<Byte>)

  function JoinProofMessages(x: Inputs3): seq<Byte> {
    Tlv.Encode(Message(TLV_BLOCK_CIPHER_TEXT, 1, x.field1))
    + Tlv.Encode(Message(TLV_MESSAGE_AUTHENTICATION_CODE, 1, x.field1Mac))
    + Tlv.Encode(Message(TLV_NONCE, 1, x.n2))
    + Tlv.Encode(Message(TLV_CIPHER_TEXT, 1, [PEK_PUB] + x.pwk2))
    + Tlv.Encode(Message(TLV_SE_REPORT, 1, x.report + x.reportSig))
  }

  /** The size allowed for in advance for the signature messages. */
  function PredictedEpid(x: Inputs3): nat {
    if x.epidGenerated then (SHORT_HEADER + |x.epidIv| + x.epidOutputSize) + (SHORT_HEADER + |x.epidMac|) else 0
  }

  function AuthenticatedHeader3(s: State, x: Inputs3, iv: seq<Byte>): seq<Byte> {
    Header(s.request,
           PredictedSize(Append(s, Message(TLV_NONCE, 1, x.nonce)).msg, iv, JoinProofMessages(x)) + PredictedEpid(x))
  }

  function AppendEpid(s: State, x: Inputs3): State {
    Append(Append(s, Message(TLV_BLOCK_CIPHER_TEXT, 1, x.epidIv + x.epidSig)),
           Message(TLV_MESSAGE_AUTHENTICATION_CODE, 1, x.epidMac))
  }

  function EncodeMessage3(s: State, x: Inputs3): (State, bool) {
    if s.poisoned || s.phase != REQUEST || x.argumentsPoisoned then (Poison(s), false)
    else
      var s1 := Append(s, Message(TLV_NONCE, 1, x.nonce));
      if !x.joinProof || x.iv.None? then (Poison(s1), false)
      else
        match x.seal(x.ek2, x.iv.value, JoinProofMessages(x), AuthenticatedHeader3(s, x, x.iv.value))
        case None => (Poison(s1), false)
        case Some(sealed) =>
          var s2 := AppendSealed(s1, x.iv.value, sealed);
          if !x.epidGenerated then (s2.(size := |s2.msg| % U32), true)
          else if x.epidSig == [] then (Poison(s2), false)
          else
            var s3 := AppendEpid(s2, x);
            (s3.(size := |s3.msg| % U32), true)
  }

  // --- Sending and receiving ---

  /** The text sent: the header in hexadecimal, the messages in Base64. */
  function Encode(s: State): (State, Option<string>) {
    if s.poisoned then (s, None)
    else (s.(phase := REQUEST), Some(HexText(Header(s.request, |s.msg|)) + Base64Text(s.msg)))
  }

  /** A text long enough to be read: the header, and at least one character of payload. */
  predicate HasPayload(text: string) {
    2 * RESPONSE_HEADER < |text|
  }

  function DeclaredSize(response: seq<Byte>): nat
    requires |response| == RESPONSE_HEADER
  {
    FromBE(response[RESPONSE_SIZE_AT..])
  }

  /** The text's header and payload, taken over; the payload is what remains to be split. */
  function Received(s: State, text: string, junk: seq<Byte>): (State, bool)
    requires HasPayload(text) && |junk| == 3
  {
    var hex := text[..2 * RESPONSE_HEADER];
    HexBytesLength(hex);
    match HexBytes(hex)
    case None => (Poison(s.(phase := RESPONSE, msg := [])), false)
    case Some(header) =>
      var s1 := s.(phase := RESPONSE, response := header, msg := DecodedText(text[2 * RESPONSE_HEADER..], junk));
      if DeclaredSize(header) != |s1.msg| then (Poison(s1), false) else (s1, true)
  }

  /** Decoding reads only inside its buffers. */
  predicate DecodeDefined(s: State, text: string, junk: seq<Byte>) {
    !s.poisoned ==>
      HasPayload(text) && |junk| == 3
      && (Received(s, text, junk).1 ==> Split(Received(s, text, junk).0.msg).Some?)
  }

  function Decode(s: State, text: string, junk: seq<Byte>): (State, bool)
    requires DecodeDefined(s, text, junk)
  {
    if s.poisoned then (s, false)
    else
      var (s1, ok) := Received(s, text, junk);
      if ok then (s1.(messages := Split(s1.msg).value), true) else (s1, false)
  }

  /** An unpoisoned response with valid arguments replaces its messages; poisoned arguments poison. */
  predicate ReloadDefined(s: State, block: Option<seq<Byte>>) {
    !s.poisoned && s.phase == RESPONSE && block.Some? ==> Split(block.value).Some?
  }

  function Reload(s: State, block: Option<seq<Byte>>): (State, bool)
    requires ReloadDefined(s, block)
  {
    if s.poisoned || s.phase != RESPONSE then (s, false)
    else match block
      case None => (Poison(s), false)
      case Some(b) => (s.(msg := b, messages := Split(b).value), true)
  }

  function GetMessage(s: State, typ: Byte, version: Byte): (State, Option<seq<Byte>>) {
    if s.poisoned || s.phase != RESPONSE then (Poison(s), None)
    else match FindFirst(s.messages, typ, version)
      case None => (Poison(s), None)
      case Some(p) => (s, Some(p))
  }

  function GetMessageNumber(s: State, typ: Byte, version: Byte, locn: nat): (State, Option<seq<Byte>>) {
    if s.poisoned || s.phase != RESPONSE || locn >= |s.messages| || !Matches(s.messages[locn], typ, version) then
      (Poison(s), None)
    else (s, Some(Parse(s.messages[locn]).payload))
  }

  // --- The header authenticated is the header sent ---

  /** Extra header bytes of a message whose payload does not fit the short form. */
  function Excess(n: nat): nat {
    if n > 0xFFFF then LONG_HEADER - SHORT_HEADER else 0
  }

  lemma SealedSize(s: State, iv: seq<Byte>, sealed: Sealed, text: seq<Byte>)
    requires |sealed.cipher| == |text| && |sealed.tag| == 16
    ensures |AppendSealed(s, iv, sealed).msg| == PredictedSize(s.msg, iv, text) + Excess(|iv| + |text|)
    ensures AppendSealed(s, iv, sealed).request == s.request
  {
  }

  /** The state after a successful message 2: the encrypted key, then the sealed platform messages. */
  lemma Message2Outcome(s: State, x: Inputs2, done: State, key: seq<Byte>) returns (sealed: Sealed)
    requires KeepsLength(x.seal) && EncodeMessage2(s, x) == (done, true)
    requires x.rsa(KeyMessages(x)) == Some(key)
    ensures x.ppid.Some? && !s.poisoned
    ensures |sealed.cipher| == |PlatformMessages(x, x.ppid.value)| && |sealed.tag| == 16
    ensures var s2 := AppendSealed(Append(s, Message(TLV_CIPHER_TEXT, 1, [PEK_PUB] + key)), x.iv, sealed);
            done == s2.(size := |s2.msg| % U32)
  {
    var mac := x.cmac(x.sk, s.request.xid).value;
    sealed := x.seal(mac, x.iv, PlatformMessages(x, x.ppid.value), AuthenticatedHeader2(s, x, key, x.ppid.value)).value;
  }

  lemma SameResidue(a: nat, b: nat)
    ensures a % U32 == b % U32 <==> (b - a) % U32 == 0
  {
  }

  lemma SizesGiveHeader(r: Request, a: nat, b: nat)
    ensures Header(r, a) == Header(r, b) <==> (b - a) % U32 == 0
  {
    HeaderSizeField(r, a, b);
    SameResidue(a, b);
  }

  /** The header predicted for a sealed text, against the header of the result; `more` follows the sealed text. */
  lemma SealedHeader(s: State, iv: seq<Byte>, sealed: Sealed, text: seq<Byte>, predicted: nat, more: nat)
    requires |sealed.cipher| == |text| && |sealed.tag| == 16
    ensures var size := |AppendSealed(s, iv, sealed).msg| + more;
            && Header(s.request, PredictedSize(s.msg, iv, text) + predicted) == Header(s.request, size) <==>
               (Excess(|iv| + |text|) + more - predicted) % U32 == 0
    ensures AppendSealed(s, iv, sealed).request == s.request
  {
    hide Header, Tlv.Encode;
    SealedSize(s, iv, sealed, text);
    SizesGiveHeader(s.request, PredictedSize(s.msg, iv, text) + predicted, |AppendSealed(s, iv, sealed).msg| + more);
  }

  lemma Message2Sizes(s: State, x: Inputs2, done: State, key: seq<Byte>, sealed: Sealed)
    requires x.ppid.Some?
    requires |sealed.cipher| == |PlatformMessages(x, x.ppid.value)| && |sealed.tag| == 16
    requires var s2 := AppendSealed(Append(s, Message(TLV_CIPHER_TEXT, 1, [PEK_PUB] + key)), x.iv, sealed);
             done == s2.(size := |s2.msg| % U32)
    ensures AuthenticatedHeader2(s, x, key, x.ppid.value) == Header(done.request, |done.msg|) <==>
            |x.iv| + |PlatformMessages(x, x.ppid.value)| <= 0xFFFF
  {
    hide Tlv.Encode, PlatformMessages;
    var s1, text := Append(s, Message(TLV_CIPHER_TEXT, 1, [PEK_PUB] + key)), PlatformMessages(x, x.ppid.value);
    SealedHeader(s1, x.iv, sealed, text, 0, 0);
    assert s1.request == s.request;
  }

  /**
   * Message 2: the header authenticated is byte for byte the header sent later, exactly when
   * the initialization vector and the platform messages together fit the short form.
   */
  lemma Message2HeaderSent(s: State, x: Inputs2, done: State, key: seq<Byte>)
    requires KeepsLength(x.seal) && EncodeMessage2(s, x) == (done, true)
    requires x.rsa(KeyMessages(x)) == Some(key)
    ensures x.ppid.Some? && !done.poisoned
    ensures AuthenticatedHeader2(s, x, key, x.ppid.value) == Header(done.request, |done.msg|) <==>
            |x.iv| + |PlatformMessages(x, x.ppid.value)| <= 0xFFFF
    ensures done.size == |done.msg| % U32
  {
    var sealed := Message2Outcome(s, x, done, key);
    Message2Sizes(s, x, done, key, sealed);
  }

  /** How far the size of message 3 ends up from the size predicted. */
  function Surplus3(x: Inputs3, iv: seq<Byte>): int {
    Excess(|iv| + |JoinProofMessages(x)|)
    + if x.epidGenerated then |x.epidSig| - x.epidOutputSize + Excess(|x.epidIv| + |x.epidSig|) else 0
  }

  lemma EpidSize(s: State, x: Inputs3)
    requires x.epidGenerated && |x.epidMac| == 16
    ensures |AppendEpid(s, x).msg| ==
            |s.msg| + PredictedEpid(x) + |x.epidSig| - x.epidOutputSize + Excess(|x.epidIv| + |x.epidSig|)
    ensures AppendEpid(s, x).request == s.request
  {
  }

  lemma Message3Outcome(s: State, x: Inputs3, done: State) returns (sealed: Sealed)
    requires KeepsLength(x.seal) && EncodeMessage3(s, x) == (done, true)
    ensures x.iv.Some? && !s.poisoned
    ensures |sealed.cipher| == |JoinProofMessages(x)| && |sealed.tag| == 16
    ensures var s2 := AppendSealed(Append(s, Message(TLV_NONCE, 1, x.nonce)), x.iv.value, sealed);
            var s3 := if x.epidGenerated then AppendEpid(s2, x) else s2;
            done == s3.(size := |s3.msg| % U32)
  {
    sealed := x.seal(x.ek2, x.iv.value, JoinProofMessages(x), AuthenticatedHeader3(s, x, x.iv.value)).value;
  }

  lemma Message3Sizes(s: State, x: Inputs3, done: State, iv: seq<Byte>, text: seq<Byte>, sealed: Sealed)
    requires |x.epidMac| == 16 && text == JoinProofMessages(x)
    requires |sealed.cipher| == |text| && |sealed.tag| == 16
    requires var s2 := AppendSealed(Append(s, Message(TLV_NONCE, 1, x.nonce)), iv, sealed);
             var s3 := if x.epidGenerated then AppendEpid(s2, x) else s2;
             done == s3.(size := |s3.msg| % U32)
    ensures AuthenticatedHeader3(s, x, iv) == Header(done.request, |done.msg|) <==> Surplus3(x, iv) % U32 == 0
  {
    hide Tlv.Encode, JoinProofMessages;
    var s1 := Append(s, Message(TLV_NONCE, 1, x.nonce));
    var s2 := AppendSealed(s1, iv, sealed);
    if x.epidGenerated {
      EpidSize(s2, x);
    }
    SealedHeader(s1, iv, sealed, text, PredictedEpid(x), |done.msg| - |s2.msg|);
  }

  /** Message 3: the header authenticated is the header sent exactly when that surplus is nothing, modulo 2^32. */
  lemma Message3HeaderSent(s: State, x: Inputs3, done: State)
    requires KeepsLength(x.seal) && |x.epidMac| == 16 && EncodeMessage3(s, x) == (done, true)
    ensures x.iv.Some? && !done.poisoned
    ensures AuthenticatedHeader3(s, x, x.iv.value) == Header(done.request, |done.msg|) <==>
            Surplus3(x, x.iv.value) % U32 == 0
    ensures done.size == |done.msg| % U32
  {
    var sealed := Message3Outcome(s, x, done);
    Message3Sizes(s, x, done, x.iv.value, JoinProofMessages(x), sealed);
  }

  /**
   * When the signature has the size announced, the header of message 3 is right exactly when both sealed payloads
   * fit the short form.
   */
  lemma Message3HeaderFits(s: State, x: Inputs3, done: State)
    requires KeepsLength(x.seal) && |x.epidMac| == 16 && EncodeMessage3(s, x) == (done, true)
    requires x.epidGenerated ==> |x.epidSig| == x.epidOutputSize
    ensures x.iv.Some?
    ensures AuthenticatedHeader3(s, x, x.iv.value) == Header(done.request, |done.msg|) <==>
            |x.iv.value| + |JoinProofMessages(x)| <= 0xFFFF
            && (x.epidGenerated ==> |x.epidIv| + |x.epidSig| <= 0xFFFF)
  {
    hide Header, JoinProofMessages, EncodeMessage3, AuthenticatedHeader3;
    Message3HeaderSent(s, x, done);
  }

  /** The text sent begins with the header of the finished message, in hexadecimal. */
  lemma EncodeSendsHeader(s: State)
    requires !s.poisoned && |s.request.xid| == XID_SIZE
    ensures Encode(s).1.Some? && |Encode(s).1.value| >= 2 * REQUEST_HEADER
    ensures HexBytes(Encode(s).1.value[..2 * REQUEST_HEADER]) == Some(Header(s.request, |s.msg|))
  {
    var header := Header(s.request, |s.msg|);
    HexRoundTrip(header, HexText(header));
    assert Encode(s).1.value[..2 * REQUEST_HEADER] == HexText(header);
  }

  /** So for message 2 the text sent opens with the authenticated header exactly when everything fits. */
  lemma Message2Transmitted(s: State, x: Inputs2, done: State, key: seq<Byte>)
    requires KeepsLength(x.seal) && EncodeMessage2(s, x) == (done, true) && |s.request.xid| == XID_SIZE
    requires x.rsa(KeyMessages(x)) == Some(key)
    ensures x.ppid.Some? && Encode(done).1.Some? && |Encode(done).1.value| >= 2 * REQUEST_HEADER
    ensures HexBytes(Encode(done).1.value[..2 * REQUEST_HEADER]) == Some(AuthenticatedHeader2(s, x, key, x.ppid.value))
            <==> |x.iv| + |PlatformMessages(x, x.ppid.value)| <= 0xFFFF
  {
    hide Header, Tlv.Encode, PlatformMessages, HexBytes;
    var _ := Message2Outcome(s, x, done, key);
    Message2HeaderSent(s, x, done, key);
    EncodeSendsHeader(done);
  }

  /** And for message 3 exactly when the sizes predicted turn out right, modulo 2^32. */
  lemma Message3Transmitted(s: State, x: Inputs3, done: State)
    requires KeepsLength(x.seal) && |x.epidMac| == 16 && EncodeMessage3(s, x) == (done, true)
    requires |s.request.xid| == XID_SIZE
    ensures x.iv.Some? && Encode(done).1.Some? && |Encode(done).1.value| >= 2 * REQUEST_HEADER
    ensures HexBytes(Encode(done).1.value[..2 * REQUEST_HEADER]) == Some(AuthenticatedHeader3(s, x, x.iv.value))
            <==> Surplus3(x, x.iv.value) % U32 == 0
  {
    hide Header, Tlv.Encode, JoinProofMessages, HexBytes;
    var _ := Message3Outcome(s, x, done);
    Message3HeaderSent(s, x, done);
    EncodeSendsHeader(done);
  }

  // --- What the messages and the text sent contain ---

  lemma EncodeTwo(a: Message, b: Message)
    ensures EncodeAll([a, b]) == Tlv.Encode(a) + Tlv.Encode(b)
  {
    hide Tlv.Encode;
    assert [a, b][1..] == [b] && [b][1..] == [];
    assert EncodeAll([b]) == Tlv.Encode(b) + [];
  }

  lemma EncodeAhead(a: Message, ms: seq<Message>)
    ensures EncodeAll([a] + ms) == Tlv.Encode(a) + EncodeAll(ms)
  {
    hide Tlv.Encode;
    assert ([a] + ms)[1..] == ms;
  }

  /** The sealed text is appended as the initialization vector with the cipher text, then the tag. */
  lemma SealedAppended(s: State, iv: seq<Byte>, sealed: Sealed)
    ensures AppendSealed(s, iv, sealed).msg ==
            s.msg + EncodeAll([Message(1, 1, iv + sealed.cipher), Message(3, 1, sealed.tag)])
  {
    hide Tlv.Encode;
    EncodeTwo(Message(1, 1, iv + sealed.cipher), Message(3, 1, sealed.tag));
  }

  /** `encode_es_request`: one selector message, in any phase. */
  lemma SelectorAppended(s: State, typ: Byte, selector: Byte)
    requires !s.poisoned
    ensures var (done, ok) := EncodeEsRequest(s, typ, selector);
            && ok && done.msg == s.msg + [17, 1, 0, 2, typ, selector]
            && done == s.(msg := done.msg, size := (s.size + |done.msg|) % U32)
  {
    var m := Message(TLV_ES_SELECTOR, 1, [typ, selector]);
    assert ToBE(2, 2) == [0, 2] by {
      assert ToBE(2, 1) == [2] && ToBE(0, 1) == [0];
    }
    assert Tlv.Encode(m) == [17, 1, 0, 2, typ, selector];
  }

  /** What is encrypted for the server with message 2. */
  lemma KeyMessagesAre(x: Inputs2)
    ensures KeyMessages(x) == EncodeAll([Message(2, 1, x.sk), Message(9, 1, x.psId)])
  {
    EncodeTwo(Message(2, 1, x.sk), Message(9, 1, x.psId));
  }

  lemma PlatformMessagesAre(x: Inputs2, ppid: seq<Byte>)
    ensures PlatformMessages(x, ppid) == EncodeAll([Message(0, 1, [3] + ppid), Message(24, 1, x.platformInfo)])
  {
    EncodeTwo(Message(0, 1, [3] + ppid), Message(24, 1, x.platformInfo));
  }

  lemma SealedLeaves(s: State, iv: seq<Byte>, sealed: Sealed)
    ensures AppendSealed(s, iv, sealed) == s.(msg := AppendSealed(s, iv, sealed).msg)
  {
  }

  /**
   * Message 2: it succeeds exactly in an unpoisoned request when each step does, and poisons otherwise. Appended are
   * the encrypted session key, the sealed platform messages behind their initialization vector, and the tag; the seal
   * is over the identifier and platform messages, under the key made from the transaction id.
   */
  lemma Message2Contents(s: State, x: Inputs2, done: State, ok: bool, platform: seq<Byte>, keys: seq<Byte>)
    requires EncodeMessage2(s, x) == (done, ok)
    requires keys == EncodeAll([Message(2, 1, x.sk), Message(9, 1, x.psId)])
    requires x.ppid.Some? ==>
               platform == EncodeAll([Message(0, 1, [3] + x.ppid.value), Message(24, 1, x.platformInfo)])
    ensures !ok ==> done.poisoned
    ensures ok <==>
            && !s.poisoned && s.phase == REQUEST && x.rsa(keys).Some? && x.ppid.Some?
            && x.cmac(x.sk, s.request.xid).Some?
            && x.seal(x.cmac(x.sk, s.request.xid).value, x.iv, platform,
                      AuthenticatedHeader2(s, x, x.rsa(keys).value, x.ppid.value)).Some?
    ensures ok ==>
              var key, mac := x.rsa(keys).value, x.cmac(x.sk, s.request.xid).value;
              var sealed := x.seal(mac, x.iv, platform, AuthenticatedHeader2(s, x, key, x.ppid.value)).value;
              && done.msg == s.msg + EncodeAll([Message(0, 1, [3] + key), Message(1, 1, x.iv + sealed.cipher),
                                                Message(3, 1, sealed.tag)])
              && done == s.(msg := done.msg, size := |done.msg| % U32)
  {
    hide Tlv.Encode, KeyMessages, PlatformMessages, AuthenticatedHeader2, EncodeAll, AppendSealed;
    KeyMessagesAre(x);
    if x.ppid.Some? {
      PlatformMessagesAre(x, x.ppid.value);
    }
    if ok {
      var key, mac := x.rsa(keys).value, x.cmac(x.sk, s.request.xid).value;
      var sealed := x.seal(mac, x.iv, platform, AuthenticatedHeader2(s, x, key, x.ppid.value)).value;
      var first, rest := Message(0, 1, [3] + key), [Message(1, 1, x.iv + sealed.cipher), Message(3, 1, sealed.tag)];
      SealedAppended(Append(s, first), x.iv, sealed);
      SealedLeaves(Append(s, first), x.iv, sealed);
      EncodeAhead(first, rest);
      assert [first] + rest == [first, rest[0], rest[1]];
    }
  }

  /** The messages sealed into message 3. */
  lemma JoinProofMessagesAre(x: Inputs3)
    ensures JoinProofMessages(x) ==
            EncodeAll([Message(1, 1, x.field1), Message(3, 1, x.field1Mac), Message(4, 1, x.n2),
                       Message(0, 1, [3] + x.pwk2), Message(26, 1, x.report + x.reportSig)])
  {
    hide Tlv.Encode, EncodeAll;
    var a, b, c := Message(1, 1, x.field1), Message(3, 1, x.field1Mac), Message(4, 1, x.n2);
    var d, e := Message(0, 1, [3] + x.pwk2), Message(26, 1, x.report + x.reportSig);
    EncodeTwo(d, e);
    EncodeAhead(c, [d, e]);
    EncodeAhead(b, [c] + [d, e]);
    EncodeAhead(a, [b] + ([c] + [d, e]));
    assert [a] + ([b] + ([c] + [d, e])) == [a, b, c, d, e];
  }

  /** The messages that make up message 3. */
  function Message3Parts(x: Inputs3, iv: seq<Byte>, sealed: Sealed): seq<Message> {
    [Message(4, 1, x.nonce), Message(1, 1, iv + sealed.cipher), Message(3, 1, sealed.tag)]
    + if x.epidGenerated then [Message(1, 1, x.epidIv + x.epidSig), Message(3, 1, x.epidMac)] else []
  }

  lemma EncodeNone()
    ensures EncodeAll([]) == []
  {
  }

  lemma {:induction false} EncodeAllConcat(xs: seq<Message>, ys: seq<Message>, all: seq<Message>)
    requires all == xs + ys
    ensures EncodeAll(all) == EncodeAll(xs) + EncodeAll(ys)
    decreases |xs|
  {
    hide Tlv.Encode, EncodeAll;
    if xs == [] {
      EncodeNone();
      assert all == ys && [] + EncodeAll(ys) == EncodeAll(ys);
    } else {
      var first, rest := xs[0], xs[1..];
      EncodeAllConcat(rest, ys, rest + ys);
      EncodeAhead(first, rest);
      EncodeAhead(first, rest + ys);
      assert xs == [first] + rest && all == [first] + (rest + ys);
      assert Tlv.Encode(first) + EncodeAll(rest) + EncodeAll(ys) == Tlv.Encode(first) + (EncodeAll(rest) + EncodeAll(ys));
    }
  }

  lemma Message3Appended(s: State, x: Inputs3, iv: seq<Byte>, sealed: Sealed)
    ensures var s2 := AppendSealed(Append(s, Message(TLV_NONCE, 1, x.nonce)), iv, sealed);
            (if x.epidGenerated then AppendEpid(s2, x) else s2).msg == s.msg + EncodeAll(Message3Parts(x, iv, sealed))
  {
    hide Tlv.Encode, EncodeAll, AppendSealed;
    var nonce, rest := Message(4, 1, x.nonce), [Message(1, 1, iv + sealed.cipher), Message(3, 1, sealed.tag)];
    var epid := [Message(1, 1, x.epidIv + x.epidSig), Message(3, 1, x.epidMac)];
    SealedAppended(Append(s, nonce), iv, sealed);
    EncodeAhead(nonce, rest);
    assert [nonce] + rest == [nonce, rest[0], rest[1]];
    if x.epidGenerated {
      EncodeTwo(epid[0], epid[1]);
      EncodeAllConcat([nonce] + rest, epid, [nonce] + rest + epid);
      assert Message3Parts(x, iv, sealed) == [nonce] + rest + epid;
    } else {
      assert Message3Parts(x, iv, sealed) == [nonce] + rest;
    }
  }

  /**
   * Message 3: it succeeds exactly in an unpoisoned request when each step does, and poisons otherwise. Appended are
   * the nonce, the sealed join proof behind its initialization vector, the tag, and for a generated signature the
   * signature behind its own vector and its tag.
   */
  lemma Message3Contents(s: State, x: Inputs3, done: State, ok: bool, proof: seq<Byte>)
    requires EncodeMessage3(s, x) == (done, ok)
    requires proof == EncodeAll([Message(1, 1, x.field1), Message(3, 1, x.field1Mac), Message(4, 1, x.n2),
                                 Message(0, 1, [3] + x.pwk2), Message(26, 1, x.report + x.reportSig)])
    ensures !ok ==> done.poisoned
    ensures ok <==>
            && !s.poisoned && s.phase == REQUEST && !x.argumentsPoisoned && x.joinProof && x.iv.Some?
            && x.seal(x.ek2, x.iv.value, proof, AuthenticatedHeader3(s, x, x.iv.value)).Some?
            && (x.epidGenerated ==> x.epidSig != [])
    ensures ok ==>
              var sealed := x.seal(x.ek2, x.iv.value, proof, AuthenticatedHeader3(s, x, x.iv.value)).value;
              && done.msg == s.msg + EncodeAll(Message3Parts(x, x.iv.value, sealed))
              && done == s.(msg := done.msg, size := |done.msg| % U32)
  {
    hide Tlv.Encode, JoinProofMessages, AuthenticatedHeader3, EncodeAll, AppendSealed;
    JoinProofMessagesAre(x);
    if ok {
      var sealed := x.seal(x.ek2, x.iv.value, proof, AuthenticatedHeader3(s, x, x.iv.value)).value;
      Message3Appended(s, x, x.iv.value, sealed);
      SealedLeaves(Append(s, Message(TLV_NONCE, 1, x.nonce)), x.iv.value, sealed);
    }
  }

  /** The header's fields, where they are: protocol, version, transaction id, type, and the size, big-endian. */
  lemma HeaderFields(r: Request, size: nat, h: seq<Byte>, a: nat, b: nat, c: nat, d: nat)
    requires |r.xid| == XID_SIZE && h == Header(r, size)
    requires (a, b, c, d) == (h[11], h[12], h[13], h[14])
    ensures |h| == 15 && h[0] == r.protocol && h[1] == r.version && h[2..10] == r.xid && h[10] == r.typ
    ensures 0x100_0000 * a + 0x1_0000 * b + 0x100 * c + d == size % U32
  {
    hide ToBE, FromBE;
    assert h[11..] == ToBE(size % U32, 4) == [a, b, c, d];
    Pow256Widths();
    FromToBE(size % U32, 4);
    FourBytes(h[11..], a, b, c, d);
  }

  lemma HeaderLength(r: Request, size: nat)
    requires |r.xid| == XID_SIZE
    ensures |Header(r, size)| == REQUEST_HEADER
  {
  }

  /**
   * The text sent says everything: its first 30 characters are the header in hexadecimal, with the request's fields
   * and the size of the payload, and what follows is the payload: decoded, it is the message, and there is nothing
   * exactly for an empty message.
   */
  lemma TextReadsBack(s: State, text: string, junk: seq<Byte>)
    requires !s.poisoned && |s.request.xid| == XID_SIZE && |junk| == 3 && Encode(s).1 == Some(text)
    ensures Encode(s).0 == s.(phase := REQUEST)
    ensures |text| >= 30 && HexBytes(text[..30]) == Some(Header(s.request, |s.msg|))
    ensures text[30..] == "" <==> s.msg == []
    ensures s.msg != [] ==> DecodedText(text[30..], junk) == s.msg
  {
    hide Header, HexBytes, DecodedText, HexText;
    EncodeSendsHeader(s);
    HeaderLength(s.request, |s.msg|);
    assert text[30..] == Base64Text(s.msg);
    if s.msg != [] {
      PaddingOf(s.msg);
      Base64RoundTrip(s.msg, junk);
    }
  }

  /** What `init_request` is given is what the header of the text sent says. */
  lemma RequestText(s: State, protocol: Byte, typ: Byte, version: Byte, xid: seq<Byte>, begun: State, text: string,
                    h: seq<Byte>)
    requires !s.poisoned && |xid| == XID_SIZE && begun == InitRequest(s, protocol, typ, version, xid)
    requires Encode(begun).1 == Some(text) && |text| >= 30 && HexBytes(text[..30]) == Some(h)
    ensures begun.phase == REQUEST && begun.msg == s.msg
    ensures |h| == 15 && h[0] == protocol && h[1] == version && h[2..10] == xid && h[10] == typ
  {
    hide HexBytes, HexText, Header;
    EncodeSendsHeader(begun);
    HeaderLength(begun.request, |begun.msg|);
    HeaderFields(begun.request, |begun.msg|, h, h[11], h[12], h[13], h[14]);
  }

  /** A poisoned object sends nothing. */
  lemma PoisonedIsSilent(s: State)
    ensures Encode(s).1 == None <==> s.poisoned
    ensures s.poisoned ==> Encode(s).0 == s
  {
  }

  // --- A reply built by the rules is read back ---

  function Reply(header: seq<Byte>, ms: seq<Message>): string {
    HexText(header) + Base64Text(EncodeAll(ms))
  }

  lemma {:induction false} EncodeAllNonEmpty(ms: seq<Message>)
    requires ms != []
    ensures |EncodeAll(ms)| >= SHORT_HEADER
  {
  }

  lemma ReplyReceived(s: State, header: seq<Byte>, ms: seq<Message>, text: string, junk: seq<Byte>)
    requires |header| == RESPONSE_HEADER && ms != [] && |junk| == 3 && text == Reply(header, ms)
    ensures HasPayload(text)
    ensures HexBytes(text[..2 * RESPONSE_HEADER]) == Some(header)
    ensures DecodedText(text[2 * RESPONSE_HEADER..], junk) == EncodeAll(ms)
  {
    EncodeAllNonEmpty(ms);
    HexRoundTrip(header, HexText(header));
    Base64RoundTrip(EncodeAll(ms), junk);
    assert text[..2 * RESPONSE_HEADER] == HexText(header);
    assert text[2 * RESPONSE_HEADER..] == Base64Text(EncodeAll(ms));
  }

  /**
   * Any non-empty list of messages, encoded by the rules behind any header, is decoded to those messages
   * in order; decoding succeeds exactly when the header declares the payload's size, and poisons otherwise.
   */
  lemma DecodeReply(s: State, header: seq<Byte>, ms: seq<Message>, text: string, junk: seq<Byte>)
    requires !s.poisoned && |header| == RESPONSE_HEADER && ms != [] && |junk| == 3
    requires (forall i :: 0 <= i < |ms| ==> Encodable(ms[i])) && text == Reply(header, ms)
    ensures DecodeDefined(s, text, junk)
    ensures var (done, ok) := Decode(s, text, junk);
            && (ok <==> DeclaredSize(header) == |EncodeAll(ms)|)
            && (done.poisoned <==> !ok)
            && (ok ==> done.phase == RESPONSE && done.msg == EncodeAll(ms) && done.messages == Encodings(ms))
  {
    ReplyReceived(s, header, ms, text, junk);
    SplitEncodeAll(ms, EncodeAll(ms), Split(EncodeAll(ms)));
  }

  /** And the first message of each type and version is then what the search returns. */
  lemma ReplySearch(s: State, header: seq<Byte>, ms: seq<Message>, text: string, junk: seq<Byte>, k: nat)
    requires !s.poisoned && |header| == RESPONSE_HEADER && |junk| == 3 && k < |ms|
    requires (forall i :: 0 <= i < |ms| ==> Encodable(ms[i])) && text == Reply(header, ms)
    requires forall i :: 0 <= i < k ==> !(ms[i].typ == ms[k].typ && ms[i].version == ms[k].version)
    requires DeclaredSize(header) == |EncodeAll(ms)|
    ensures DecodeDefined(s, text, junk)
    ensures GetMessage(Decode(s, text, junk).0, ms[k].typ, ms[k].version) ==
            (Decode(s, text, junk).0, Some(ms[k].payload))
  {
    DecodeReply(s, header, ms, text, junk);
    FindFirstEncoded(ms, Encodings(ms), k);
  }

  /** What `decode` accepts, for every text it reads inside its buffers, and that everything else poisons. */
  lemma DecodeOutcome(s: State, text: string, junk: seq<Byte>)
    requires DecodeDefined(s, text, junk) && !s.poisoned
    ensures var (done, ok) := Decode(s, text, junk);
            && (ok <==> HexBytes(text[..38]).Some? && |HexBytes(text[..38]).value| == 19
                        && FromBE(HexBytes(text[..38]).value[15..]) == |DecodedText(text[38..], junk)|)
            && (done.poisoned <==> !ok) && done.phase == RESPONSE
            && (ok ==> done.response == HexBytes(text[..38]).value && done.msg == DecodedText(text[38..], junk))
  {
    hide HexBytes, DecodedText, FromBE, Split;
    HexBytesLength(text[..38]);
  }

  lemma MatchesEncoded(m: Message, typ: Byte, version: Byte)
    requires Encodable(m)
    ensures Matches(Tlv.Encode(m), typ, version) <==> m.typ == typ && m.version == version
    ensures HasMessage(Tlv.Encode(m)) && Parse(Tlv.Encode(m)) == m
  {
    ParseEncode(m);
  }

  /** The searches over a response that holds these messages. */
  lemma GetMessageOutcome(s: State, ms: seq<Message>, typ: Byte, version: Byte, locn: nat)
    requires !s.poisoned && s.phase == RESPONSE && s.messages == Encodings(ms)
    requires forall i :: 0 <= i < |ms| ==> Encodable(ms[i])
    ensures (forall i :: 0 <= i < |ms| ==> !(ms[i].typ == typ && ms[i].version == version)) ==>
              GetMessage(s, typ, version) == (Poison(s), None)
    ensures forall k :: 0 <= k < |ms| && ms[k].typ == typ && ms[k].version == version
                        && (forall i :: 0 <= i < k ==> !(ms[i].typ == typ && ms[i].version == version)) ==>
              GetMessage(s, typ, version) == (s, Some(ms[k].payload))
    ensures GetMessageNumber(s, typ, version, locn) ==
            if locn < |ms| && ms[locn].typ == typ && ms[locn].version == version then (s, Some(ms[locn].payload))
            else (Poison(s), None)
  {
    hide FindFirst, Matches, Encodable;
    if forall i :: 0 <= i < |ms| ==> !(ms[i].typ == typ && ms[i].version == version) {
      FindNothing(ms, s.messages, typ, version);
    }
    forall k | 0 <= k < |ms| && ms[k].typ == typ && ms[k].version == version
               && (forall i :: 0 <= i < k ==> !(ms[i].typ == typ && ms[i].version == version))
      ensures FindFirst(s.messages, typ, version) == Some(ms[k].payload)
    {
      FindFirstEncoded(ms, s.messages, k);
    }
    if locn < |ms| {
      MatchesEncoded(ms[locn], typ, version);
    }
  }

  /**
   * `reload_messages`: in a usable response, a block of encoded messages takes the place of payload and messages; a
   * poisoned block poisons; in any other state nothing happens.
   */
  lemma ReloadOutcome(s: State, ms: seq<Message>, block: Option<seq<Byte>>)
    requires forall i :: 0 <= i < |ms| ==> Encodable(ms[i])
    requires block == Some(EncodeAll(ms)) || block == None
    ensures ReloadDefined(s, block)
    ensures Reload(s, block) ==
            if s.poisoned || s.phase != RESPONSE then (s, false)
            else if block == None then (s.(poisoned := true), false)
            else (s.(msg := EncodeAll(ms), messages := Encodings(ms)), true)
  {
    hide Split;
    SplitEncodeAll(ms, EncodeAll(ms), Split(EncodeAll(ms)));
  }

  // --- Every run ---

  datatype Op =
    | OpInitRequest(protocol: Byte, typ: Byte, version: Byte, xid: seq<Byte>)
    | OpEsRequest(esType: Byte, selector: Byte)
    | OpMessage2(in2: Inputs2)
    | OpMessage3(in3: Inputs3)
    | OpEncode
    | OpDecode(text: string, junk: seq<Byte>)
    | OpGet(getType: Byte, getVersion: Byte)
    | OpGetNumber(numType: Byte, numVersion: Byte, locn: nat)
    | OpReload(block: Option<seq<Byte>>)
    | OpReset

  predicate Defined(s: State, op: Op) {
    match op
    case OpDecode(text, junk) => DecodeDefined(s, text, junk)
    case OpReload(block) => ReloadDefined(s, block)
    case _ => true
  }

  function Apply(s: State, op: Op): State
    requires Defined(s, op)
  {
    match op
    case OpInitRequest(protocol, typ, version, xid) => InitRequest(s, protocol, typ, version, xid)
    case OpEsRequest(typ, selector) => EncodeEsRequest(s, typ, selector).0
    case OpMessage2(x) => EncodeMessage2(s, x).0
    case OpMessage3(x) => EncodeMessage3(s, x).0
    case OpEncode => Encode(s).0
    case OpDecode(text, junk) => Decode(s, text, junk).0
    case OpGet(typ, version) => GetMessage(s, typ, version).0
    case OpGetNumber(typ, version, locn) => GetMessageNumber(s, typ, version, locn).0
    case OpReload(block) => Reload(s, block).0
    case OpReset => BLANK
  }

  predicate RunDefined(s: State, ops: seq<Op>)
    decreases |ops|
  {
    ops == [] || (Defined(s, ops[0]) && RunDefined(Apply(s, ops[0]), ops[1..]))
  }

  function Run(s: State, ops: seq<Op>): State
    requires RunDefined(s, ops)
    decreases |ops|
  {
    if ops == [] then s else Run(Apply(s, ops[0]), ops[1..])
  }

  /** Poison lasts until a reset. */
  lemma {:induction false} PoisonPersists(s: State, ops: seq<Op>)
    requires RunDefined(s, ops) && s.poisoned
    requires forall i :: 0 <= i < |ops| ==> !ops[i].OpReset?
    ensures Run(s, ops).poisoned
    decreases |ops|
  {
    if ops != [] {
      assert !ops[0].OpReset?;
      PoisonPersists(Apply(s, ops[0]), ops[1..]);
    }
  }

  /** In a usable response the messages are whole, and are an initial part of the payload. */
  ghost predicate Consistent(s: State) {
    !s.poisoned && s.phase == RESPONSE ==>
      Concat(s.messages) <= s.msg && forall i :: 0 <= i < |s.messages| ==> HasMessage(s.messages[i])
  }

  /** They are all of it as long as nothing was appended. */
  ghost predicate Whole(s: State) {
    !s.poisoned && s.phase == RESPONSE ==> Concat(s.messages) == s.msg
  }

  lemma ApplyKeeps(s: State, op: Op)
    requires Defined(s, op) && Consistent(s)
    ensures Consistent(Apply(s, op))
    ensures Whole(s) && !op.OpEsRequest? ==> Whole(Apply(s, op))
  {
    match op
    case OpDecode(text, junk) =>
      if !s.poisoned && Received(s, text, junk).1 {
        SplitConcat(Received(s, text, junk).0.msg);
      }
    case OpReload(block) =>
      if !s.poisoned && s.phase == RESPONSE && block.Some? {
        SplitConcat(block.value);
      }
    case _ =>
  }

  /** Every run from a fresh object keeps this. */
  lemma {:induction false} RunKeeps(s: State, ops: seq<Op>)
    requires RunDefined(s, ops) && Consistent(s)
    ensures Consistent(Run(s, ops))
    ensures Whole(s) && (forall i :: 0 <= i < |ops| ==> !ops[i].OpEsRequest?) ==> Whole(Run(s, ops))
    decreases |ops|
  {
    if ops != [] {
      ApplyKeeps(s, ops[0]);
      RunKeeps(Apply(s, ops[0]), ops[1..]);
    }
  }

  /** A selector request really can break that: it appends to a response. */
  lemma EsRequestBreaksWhole(s: State, typ: Byte, selector: Byte)
    requires !s.poisoned && s.phase == RESPONSE && Whole(s)
    ensures !Whole(EncodeEsRequest(s, typ, selector).0)
    ensures EncodeEsRequest(s, typ, selector).0.phase == RESPONSE
  {
    var added := Tlv.Encode(Message(TLV_ES_SELECTOR, 1, [typ, selector]));
    assert |added| == 6;
  }

  /** A decode that succeeds has checked the declared size against the payload. */
  lemma DecodeChecksSize(s: State, text: string, junk: seq<Byte>)
    requires DecodeDefined(s, text, junk) && Decode(s, text, junk).1
    ensures var done := Decode(s, text, junk).0;
            |done.response| == RESPONSE_HEADER && DeclaredSize(done.response) == |done.msg|
            && done.phase == RESPONSE && !done.poisoned
  {
    HexBytesLength(text[..2 * RESPONSE_HEADER]);
  }
}
