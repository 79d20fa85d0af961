/** SRDE/SRDEmessage.c: the message object itself, each method proved against the state machine of Provisioning. */
module MessageObject {
  import opened Bytes
  import opened Codec
  import opened Tlv
  import P = Provisioning
  import opened Wrappers

  class SRDEmessage {
    var poisoned: bool
    var phase: P.Phase
    var request: P.Request
    var response: seq<Byte>
    var size: nat
    var msg: seq<Byte>
    var messages: seq<seq<Byte>>

    function View(): P.State
      reads this
    {
      P.State(poisoned, phase, request, response, size, msg, messages)
    }

    constructor ()
      ensures View() == P.BLANK
    {
      poisoned, phase := false, P.INIT;
      request, response := P.Request(0, 0, Zeros(P.XID_SIZE), 0), Zeros(P.RESPONSE_HEADER);
      size, msg, messages := 0, [], [];
    }

    method InitRequest(protocol: Byte, typ: Byte, version: Byte, xid: seq<Byte>)
      modifies this
      ensures View() == P.InitRequest(old(View()), protocol, typ, version, xid)
    {
      if poisoned {
        return;
      }
      phase := P.REQUEST;
      request := P.Request(protocol, version, xid, typ);
    }

    /** `_encode_message`, onto any buffer. */
    static method EncodeMessage(typ: Byte, version: Byte, payload: seq<Byte>, onto: seq<Byte>) returns (after: seq<Byte>)
      ensures after == onto + Tlv.Encode(Message(typ, version, payload))
    {
      hide ToBE;
      var needLarge := typ == TLV_QUOTE_SIG || typ == TLV_SE_REPORT;
      var header;
      if |payload| <= 0xFFFF && !needLarge {
        header := [typ, version] + ToBE(|payload|, 2);
      } else {
        header := [if typ < 128 then typ + 128 else typ, version] + ToBE(|payload| % U32, 4);
      }
      after := onto + header;
      after := after + payload;
      assert after == onto + (header + payload);
    }

    method EncodeEsRequest(typ: Byte, selector: Byte) returns (ok: bool)
      modifies this
      ensures (View(), ok) == P.EncodeEsRequest(old(View()), typ, selector)
    {
      if poisoned {
        return false;
      }
      ghost var m := Message(TLV_ES_SELECTOR, 1, [typ, selector]);
      assert Tlv.Encode(m) == [TLV_ES_SELECTOR, 1] + ToBE(2, 2) + [typ, selector];
      msg := msg + ([TLV_ES_SELECTOR, 1] + ToBE(2, 2));
      msg := msg + [typ, selector];
      assert msg == old(msg) + Tlv.Encode(m);
      size := (size + |msg|) % U32;
      return true;
    }

    method EncodeMessage2(x: P.Inputs2) returns (ok: bool)
      modifies this
      ensures (View(), ok) == P.EncodeMessage2(old(View()), x)
    {
      hide Tlv.Encode, P.Header;
      if poisoned || phase != P.REQUEST {
        poisoned := true;
        return false;
      }

      var submsg := EncodeMessage(TLV_BLOCK_CIPHER_INFO, 1, x.sk, []);
      submsg := EncodeMessage(TLV_PS_ID, 1, x.psId, submsg);
      assert submsg == P.KeyMessages(x);
      var encout := x.rsa(submsg);
      if encout.None? {
        poisoned := true;
        return false;
      }
      msg := EncodeMessage(TLV_CIPHER_TEXT, 1, [P.PEK_PUB] + encout.value, msg);
      if x.ppid.None? {
        poisoned := true;
        return false;
      }

      submsg := EncodeMessage(TLV_CIPHER_TEXT, 1, [P.PEK_PUB] + x.ppid.value, []);
      submsg := EncodeMessage(TLV_PLATFORM_INFO, 1, x.platformInfo, submsg);
      assert submsg == P.PlatformMessages(x, x.ppid.value);
      var key := x.cmac(x.sk, request.xid);
      if key.None? {
        poisoned := true;
        return false;
      }

      var total := |msg|;
      total := total + (SHORT_HEADER + |x.iv| + |submsg|);
      total := total + (SHORT_HEADER + 16);
      var sealed := x.seal(key.value, x.iv, submsg, P.Header(request, total));
      if sealed.None? {
        poisoned := true;
        return false;
      }
      msg := EncodeMessage(TLV_BLOCK_CIPHER_TEXT, 1, x.iv + sealed.value.cipher, msg);
      msg := EncodeMessage(TLV_MESSAGE_AUTHENTICATION_CODE, 1, sealed.value.tag, msg);
      size := |msg| % U32;
      return true;
    }

    method EncodeMessage3(x: P.Inputs3) returns (ok: bool)
      modifies this
      ensures (View(), ok) == P.EncodeMessage3(old(View()), x)
    {
      hide Tlv.Encode, P.Header;
      if poisoned || phase != P.REQUEST || x.argumentsPoisoned {
        poisoned := true;
        return false;
      }
      msg := EncodeMessage(TLV_NONCE, 1, x.nonce, msg);
      if !x.joinProof || x.iv.None? {
        poisoned := true;
        return false;
      }

      var submsg := EncodeMessage(TLV_BLOCK_CIPHER_TEXT, 1, x.field1, []);
      submsg := EncodeMessage(TLV_MESSAGE_AUTHENTICATION_CODE, 1, x.field1Mac, submsg);
      submsg := EncodeMessage(TLV_NONCE, 1, x.n2, submsg);
      submsg := EncodeMessage(TLV_CIPHER_TEXT, 1, [P.PEK_PUB] + x.pwk2, submsg);
      submsg := EncodeMessage(TLV_SE_REPORT, 1, x.report + x.reportSig, submsg);
      assert submsg == P.JoinProofMessages(x);

      var total := |msg|;
      total := total + (SHORT_HEADER + |x.iv.value| + |submsg|);
      total := total + (SHORT_HEADER + 16);
      if x.epidGenerated {
        total := total + (SHORT_HEADER + |x.epidIv| + x.epidOutputSize);
        total := total + (SHORT_HEADER + |x.epidMac|);
      }
      var sealed := x.seal(x.ek2, x.iv.value, submsg, P.Header(request, total));
      if sealed.None? {
        poisoned := true;
        return false;
      }
      msg := EncodeMessage(TLV_BLOCK_CIPHER_TEXT, 1, x.iv.value + sealed.value.cipher, msg);
      msg := EncodeMessage(TLV_MESSAGE_AUTHENTICATION_CODE, 1, sealed.value.tag, msg);

      if x.epidGenerated {
        if |x.epidSig| == 0 {
          poisoned := true;
          return false;
        }
        msg := EncodeMessage(TLV_BLOCK_CIPHER_TEXT, 1, x.epidIv + x.epidSig, msg);
        msg := EncodeMessage(TLV_MESSAGE_AUTHENTICATION_CODE, 1, x.epidMac, msg);
      }
      size := |msg| % U32;
      return true;
    }

    /** The header, two hexadecimal digits a byte. */
    static method EncodeHex(header: seq<Byte>) returns (text: string)
      ensures text == HexText(header)
    {
      text := "";
      for lp := 0 to |header|
        invariant text == HexText(header[..lp])
      {
        assert header[..lp + 1][..lp] == header[..lp];
        text := text + [HexDigit(header[lp] / 16), HexDigit(header[lp] % 16)];
      }
      assert header[..|header|] == header;
    }

    /** The payload, three bytes to four characters at a time. */
    static method EncodeBase64(payload: seq<Byte>) returns (text: string)
      ensures text == Base64Text(payload)
    {
      hide Base64Text, EncodeBlock;
      Base64Length(payload);
      var blocks, residual, p := |payload| / 3, |payload| % 3, 0;
      text := "";
      for lp := 0 to blocks
        invariant p == 3 * lp && 4 * lp <= |Base64Text(payload)| && text == Base64Text(payload)[..4 * lp]
      {
        EncodeBlockAt(payload, lp);
        text := text + EncodeBlock(payload[p..p + 3]);
        p := p + 3;
      }
      if residual > 0 {
        EncodeBlockAt(payload, blocks);
        text := text + EncodeBlock(payload[p..p + residual]);
      }
      assert text == Base64Text(payload)[..|Base64Text(payload)|];
    }

    method Encode() returns (text: Option<string>)
      modifies this
      ensures (View(), text) == P.Encode(old(View()))
    {
      hide P.Header, HexText, Base64Text;
      if poisoned {
        return None;
      }
      phase := P.REQUEST;
      var header := EncodeHex(P.Header(request, |msg|));
      var payload := EncodeBase64(msg);
      return Some(header + payload);
    }

    /** `_unpack_messages`: the offset always advances by at least a short header. */
    method UnpackMessages()
      requires Split(msg).Some?
      modifies `messages
      ensures messages == Split(msg).value
    {
      hide Split, FromBE;
      var mp := 0;
      messages := [];
      ghost var all, rest := Split(msg).value, Split(msg).value;
      assert msg[0..] == msg;
      while mp < |msg|
        invariant 0 <= mp <= |msg| && Split(msg[mp..]) == Some(rest) && all == messages + rest
        decreases |msg| - mp
      {
        var headerSize := if msg[mp] >= 128 then LONG_HEADER else SHORT_HEADER;
        ghost var first := SplitInside(msg, mp, headerSize);
        var step := headerSize + FromBE(msg[mp + 2..mp + headerSize]);
        messages := messages + [msg[mp..mp + step]];
        rest := Split(msg[mp + step..]).value;
        mp := mp + step;
      }
      SplitEmpty();
      assert msg[mp..] == [];
    }

    /** Base64 characters back to bytes, four at a time, through one three-byte buffer. */
    static method DecodeBase64(payload: string, junk: seq<Byte>) returns (out: seq<Byte>)
      requires payload != [] && |junk| == 3
      ensures out == DecodedText(payload, junk)
    {
      hide DecodeBlock, PaddingCount;
      var decbufr, p := junk, 0;
      var blocks, residual := |payload| / 4, |payload| % 4;
      out := [];
      for lp := 0 to blocks
        invariant p == 4 * lp && |decbufr| == 3 && decbufr == BufferAfter(payload, lp, junk)
        invariant out == DecodedBlocks(payload, lp, junk)
      {
        decbufr := DecodeBlock(payload[p..p + 4], decbufr);
        out := out + decbufr;
        p := p + 4;
      }
      if residual > 0 {
        out := out + Zeros(3);
      } else {
        p := p - 4;
        var pad := 0;
        if payload[p + 2] == '=' {
          pad := pad + 1;
        }
        if payload[p + 3] == '=' {
          pad := pad + 1;
        }
        PaddingMeans(payload);
        out := out[..|out| - pad];
      }
    }

    method Decode(text: string, junk: seq<Byte>) returns (ok: bool)
      requires P.DecodeDefined(View(), text, junk)
      modifies this
      ensures (View(), ok) == P.Decode(old(View()), text, junk)
    {
      hide DecodedText, HexBytes, Split;
      if poisoned {
        return false;
      }
      phase := P.RESPONSE;
      var hdrSize := 2 * P.RESPONSE_HEADER;
      msg := [];
      HexBytesLength(text[..hdrSize]);
      var header := HexBytes(text[..hdrSize]);
      if header.None? {
        poisoned := true;
        return false;
      }
      response := header.value;
      msg := DecodeBase64(text[hdrSize..], junk);
      var declared := FromBE(response[P.RESPONSE_SIZE_AT..]);
      if declared != |msg| {
        poisoned := true;
        return false;
      }
      UnpackMessages();
      return true;
    }

    /** The fields of one message, by the header its first byte announces. */
    static method ReadTlv(tlv: seq<Byte>) returns (typ: Byte, version: Byte, payload: seq<Byte>)
      requires HasMessage(tlv)
      ensures Message(typ, version, payload) == Parse(tlv)
    {
      if tlv[0] >= 128 {
        typ, version := tlv[0] - 128, tlv[1];
        payload := tlv[LONG_HEADER..LONG_HEADER + FromBE(tlv[2..LONG_HEADER])];
      } else {
        typ, version := tlv[0], tlv[1];
        payload := tlv[SHORT_HEADER..SHORT_HEADER + FromBE(tlv[2..SHORT_HEADER])];
      }
    }

    /** The first message of the type and version; not finding one poisons the object. */
    method GetMessage(requested: Byte, version: Byte) returns (found: Option<seq<Byte>>)
      requires P.Consistent(View())
      modifies `poisoned
      ensures (View(), found) == P.GetMessage(old(View()), requested, version)
    {
      if poisoned || phase != P.RESPONSE {
        poisoned := true;
        return None;
      }
      assert messages[0..] == messages;
      for lp := 0 to |messages|
        invariant !poisoned
        invariant FindFirst(messages, requested, version) == FindFirst(messages[lp..], requested, version)
      {
        var typ, mver, payload := ReadTlv(messages[lp]);
        assert messages[lp..][0] == messages[lp] && messages[lp..][1..] == messages[lp + 1..];
        if typ == requested && mver == version {
          return Some(payload);
        }
      }
      poisoned := true;
      return None;
    }

    method GetMessageNumber(requested: Byte, version: Byte, locn: nat) returns (found: Option<seq<Byte>>)
      requires P.Consistent(View())
      modifies `poisoned
      ensures (View(), found) == P.GetMessageNumber(old(View()), requested, version, locn)
    {
      if poisoned || phase != P.RESPONSE || locn >= |messages| {
        poisoned := true;
        return None;
      }
      var typ, mver, payload := ReadTlv(messages[locn]);
      if typ == requested && mver == version {
        return Some(payload);
      }
      poisoned := true;
      return None;
    }

    /** New messages from a block carried inside the old ones; None stands for a poisoned argument. */
    method ReloadMessages(block: Option<seq<Byte>>) returns (ok: bool)
      requires P.ReloadDefined(View(), block)
      modifies this
      ensures (View(), ok) == P.Reload(old(View()), block)
    {
      if poisoned || phase != P.RESPONSE {
        return false;
      }
      if block.None? {
        poisoned := true;
        return false;
      }
      msg := block.value;
      UnpackMessages();
      return true;
    }

    method Reset()
      modifies this
      ensures !poisoned && phase == P.INIT && size == 0 && msg == [] && messages == []
      ensures View() == P.BLANK
    {
      poisoned, phase, size := false, P.INIT, 0;
      request, response := P.Request(0, 0, Zeros(P.XID_SIZE), 0), Zeros(P.RESPONSE_HEADER);
      msg, messages := [], [];
    }
  }
}
