/** Zero-overhead obfuscation (zerooverhead.go): the first AES block of every packet is
    enciphered; control packets are also padded and their remainder is sealed. */
module Obfuscation {
  import opened Wrappers
  import opened BigEndian

  const BLOCK_SIZE: int := 16
  const OVERHEAD: int := 16
  const NONCE_SIZE: int := 24

  /** The block cipher and the AEAD under the pre-shared key. */
  datatype Ciphers = Ciphers(encipher: Bytes -> Bytes, decipher: Bytes -> Bytes,
                             seal: (Bytes, Bytes) -> Bytes, open: (Bytes, Bytes) -> Option<Bytes>)
  {
    ghost predicate Lawful() {
      && (forall b :: |b| == BLOCK_SIZE ==> |encipher(b)| == BLOCK_SIZE && decipher(encipher(b)) == b)
      && (forall b :: |b| == BLOCK_SIZE ==> |decipher(b)| == BLOCK_SIZE)
      && (forall n, m :: |seal(n, m)| == |m| + OVERHEAD && open(n, seal(n, m)) == Some(m))
    }
  }

  datatype Handler = Handler(enabled: bool, ciphers: Ciphers, maxPacketSize: int) {
    function MaxControlPacketSize(): int {
      maxPacketSize - 2 - OVERHEAD - NONCE_SIZE
    }
  }

  datatype Failure = TooLarge | BadLength | NotAuthentic | TooSmall | BadPayloadLength

  /** Register, ServerUpdate, Ping, Pong, QueryPeer and BroadcastPeer. */
  predicate IsControl(messageType: byte) {
    1 <= messageType <= 6
  }

  /** Exactly six message types are control messages; handshake and transport types are not. */
  lemma ControlTypes(messageType: byte)
    ensures IsControl(messageType) <==> messageType in {1, 2, 3, 4, 5, 6}
    ensures !IsControl(0)
  {
  }

  /** Random padding as long as the generator may choose it. */
  predicate PaddingOk(h: Handler, packet: Bytes, padding: Bytes) {
    var headroom := h.MaxControlPacketSize() - |packet|;
    if headroom > 0 then 1 <= |padding| <= headroom else padding == []
  }

  // ------------------------------------------------- decryption

  /** What Decrypt makes of a packet, as one expression. */
  function Decrypted(h: Handler, packet: Bytes): Result<Bytes, Failure> {
    if !h.enabled || |packet| < BLOCK_SIZE then Ok(packet)
    else
      var block := h.ciphers.decipher(packet[..BLOCK_SIZE]);
      if |block| != BLOCK_SIZE || !IsControl(block[0]) then Ok(block + packet[BLOCK_SIZE..])
      else if |packet| < BLOCK_SIZE + 2 + OVERHEAD + NONCE_SIZE then Err(BadLength)
      else
        var cut := |packet| - NONCE_SIZE;
        match h.ciphers.open(packet[cut..], packet[BLOCK_SIZE..cut])
        case None => Err(NotAuthentic)
        case Some(plain) => Unpadded(block, plain)
  }

  /** The payload in front of the padding; its length is in the last two bytes. */
  function Unpadded(block: Bytes, plain: Bytes): Result<Bytes, Failure> {
    if |block + plain| < 2 then Err(TooSmall)
    else
      var whole := block + plain;
      var end := |whole| - 2;
      var size := Word(whole[end], whole[end + 1]);
      if |block| + size > end then Err(BadPayloadLength) else Ok(whole[..|block| + size])
  }

  method Decrypt(h: Handler, packet: Bytes) returns (r: Result<Bytes, Failure>)
    requires h.ciphers.Lawful()
    ensures r == Decrypted(h, packet)
  {
    if !h.enabled { return Ok(packet); }
    if |packet| < BLOCK_SIZE { return Ok(packet); }
    var dst := h.ciphers.decipher(packet[..BLOCK_SIZE]);
    var messageType := dst[0];
    if !IsControl(messageType) {
      return Ok(dst + packet[BLOCK_SIZE..]);
    }
    if |packet| < BLOCK_SIZE + 2 + OVERHEAD + NONCE_SIZE { return Err(BadLength); }
    var dstLen := |dst|;
    var nonceStart := |packet| - NONCE_SIZE;
    var content := h.ciphers.open(packet[nonceStart..], packet[BLOCK_SIZE..nonceStart]);
    if content == None { return Err(NotAuthentic); }
    var plaintext := dst + content.value;
    if |plaintext| < 2 { return Err(TooSmall); }
    var paddingEnd := |plaintext| - 2;
    dstLen := dstLen + Word(plaintext[paddingEnd], plaintext[paddingEnd + 1]);
    if dstLen > paddingEnd { return Err(BadPayloadLength); }
    return Ok(plaintext[..dstLen]);
  }

  /** A control packet whose content does not open, or that is too short to have one, is never
      returned. */
  lemma NotAuthenticIsRefused(h: Handler, packet: Bytes)
    requires h.ciphers.Lawful() && h.enabled && |packet| >= BLOCK_SIZE
    requires IsControl(h.ciphers.decipher(packet[..BLOCK_SIZE])[0])
    requires |packet| >= BLOCK_SIZE + NONCE_SIZE ==>
      h.ciphers.open(packet[|packet| - NONCE_SIZE..], packet[BLOCK_SIZE..|packet| - NONCE_SIZE]) == None
    ensures Decrypted(h, packet).Err?
  {
  }

  /** Only what was sealed opens, and enciphering undoes deciphering. */
  ghost predicate Ideal(c: Ciphers) {
    && (forall b :: |b| == BLOCK_SIZE ==> c.encipher(c.decipher(b)) == b)
    && (forall n, x :: c.open(n, x).Some? ==> x == c.seal(n, c.open(n, x).value))
  }

  /** The packet that encryption makes of a control packet, for some padding and nonce. */
  ghost predicate IsSealed(h: Handler, packet: Bytes, plain: Bytes, padding: Bytes, nonce: Bytes)
    requires |plain| >= BLOCK_SIZE
  {
    && |nonce| == NONCE_SIZE && |plain| - BLOCK_SIZE <= 0xFFFF
    && var payload := plain[BLOCK_SIZE..];
    var content := payload + padding + Be16(|payload|);
    packet == h.ciphers.encipher(plain[..BLOCK_SIZE]) + h.ciphers.seal(nonce, content) + nonce
  }

  /** The content of a sealed packet is the payload, some padding, and the length of the payload. */
  lemma UnpaddedMeaning(block: Bytes, content: Bytes, plain: Bytes) returns (padding: Bytes)
    requires |block| == BLOCK_SIZE && |content| >= 2 && Unpadded(block, content) == Ok(plain)
    ensures |plain| >= BLOCK_SIZE && |plain| - BLOCK_SIZE <= 0xFFFF && plain[..BLOCK_SIZE] == block
    ensures var payload := plain[BLOCK_SIZE..]; content == payload + padding + Be16(|payload|)
  {
    var hi, lo;
    padding, hi, lo := UnpaddedParts(block, content, plain);
    BytesOfWord(|plain| - BLOCK_SIZE, hi, lo);
  }

  lemma UnpaddedParts(block: Bytes, content: Bytes, plain: Bytes) returns (padding: Bytes, hi: byte, lo: byte)
    requires |block| == BLOCK_SIZE && |content| >= 2 && Unpadded(block, content) == Ok(plain)
    ensures |plain| >= BLOCK_SIZE && plain[..BLOCK_SIZE] == block && |plain| - BLOCK_SIZE == Word(hi, lo)
    ensures content == plain[BLOCK_SIZE..] + padding + [hi, lo]
  {
    hi, lo := content[|content| - 2], content[|content| - 1];
    var size, whole := Word(hi, lo), block + content;
    assert whole[|whole| - 2] == hi && whole[|whole| - 1] == lo;
    assert plain == block + content[..size] && plain[BLOCK_SIZE..] == content[..size];
    padding := content[size..|content| - 2];
    ContentParts(content, size, hi, lo);
  }

  lemma ContentParts(content: Bytes, size: nat, hi: byte, lo: byte)
    requires |content| >= 2 && size <= |content| - 2
    requires hi == content[|content| - 2] && lo == content[|content| - 1]
    ensures content == content[..size] + content[size..|content| - 2] + [hi, lo]
  {
  }

  /** Whatever decryption returns for a control packet is what some encryption sealed, and what it
      returns for a data packet is what encryption would turn back: nothing else is accepted. */
  lemma DecryptedWasEncrypted(h: Handler, packet: Bytes, plain: Bytes)
    requires h.ciphers.Lawful() && Ideal(h.ciphers) && h.enabled && |packet| >= BLOCK_SIZE
    requires Decrypted(h, packet) == Ok(plain)
    ensures |plain| >= BLOCK_SIZE
    ensures !IsControl(plain[0]) ==> packet == h.ciphers.encipher(plain[..BLOCK_SIZE]) + plain[BLOCK_SIZE..]
    ensures IsControl(plain[0]) ==> exists padding, nonce :: IsSealed(h, packet, plain, padding, nonce)
  {
    var block := h.ciphers.decipher(packet[..BLOCK_SIZE]);
    assert h.ciphers.encipher(block) == packet[..BLOCK_SIZE];
    if IsControl(block[0]) {
      SealedContent(h, packet, plain, block);
    } else {
      assert plain[..BLOCK_SIZE] == block && plain[BLOCK_SIZE..] == packet[BLOCK_SIZE..];
    }
  }

  lemma SealedContent(h: Handler, packet: Bytes, plain: Bytes, block: Bytes)
    requires h.ciphers.Lawful() && Ideal(h.ciphers) && h.enabled && |packet| >= BLOCK_SIZE
    requires block == h.ciphers.decipher(packet[..BLOCK_SIZE]) && IsControl(block[0])
    requires Decrypted(h, packet) == Ok(plain)
    ensures |plain| >= BLOCK_SIZE && plain[0] == block[0]
    ensures exists padding, nonce :: IsSealed(h, packet, plain, padding, nonce)
  {
    var cut := |packet| - NONCE_SIZE;
    var nonce, sealed := packet[cut..], packet[BLOCK_SIZE..cut];
    var content := h.ciphers.open(nonce, sealed).value;
    assert sealed == h.ciphers.seal(nonce, content);
    var padding := UnpaddedMeaning(block, content, plain);
    ThreeParts(packet);
    assert IsSealed(h, packet, plain, padding, nonce);
  }

  lemma ThreeParts(packet: Bytes)
    requires |packet| >= BLOCK_SIZE + NONCE_SIZE
    ensures var cut := |packet| - NONCE_SIZE; packet == packet[..BLOCK_SIZE] + packet[BLOCK_SIZE..cut] + packet[cut..]
  {
  }

  // ------------------------------------------------- encryption

  /** The trailer ends up in the last two bytes, behind block and payload. */
  lemma TrailerAtEnd(block: Bytes, payload: Bytes, padding: Bytes, size: Bytes)
    requires |size| == 2
    ensures var whole := block + (payload + padding + size);
      && |whole| == |block| + |payload| + |padding| + 2
      && whole[|whole| - 2] == size[0] && whole[|whole| - 1] == size[1]
      && whole[..|block| + |payload|] == block + payload
  {
  }

  lemma UnpaddedWith(block: Bytes, payload: Bytes, padding: Bytes, hi: byte, lo: byte)
    requires Word(hi, lo) == |payload|
    ensures Unpadded(block, payload + padding + [hi, lo]) == Ok(block + payload)
  {
    TrailerAtEnd(block, payload, padding, [hi, lo]);
  }

  /** Removing the padding again leaves the block and the payload. */
  lemma PaddingRoundTrip(block: Bytes, payload: Bytes, padding: Bytes)
    requires |block| == BLOCK_SIZE && |payload| <= 0xFFFF
    ensures Unpadded(block, payload + padding + Be16(|payload|)) == Ok(block + payload)
  {
    WordOfBytes(|payload|);
    UnpaddedWith(block, payload, padding, B1(|payload|), B0(|payload|));
  }

  /** Whenever encryption succeeds, decryption returns the packet; data packets keep their
      length, and sealed control packets stay within the maximum. It fails exactly for control
      packets that do not fit. */
  method Encrypt(h: Handler, packet: Bytes, padding: Bytes, nonce: Bytes) returns (r: Result<Bytes, Failure>)
    requires h.ciphers.Lawful() && |nonce| == NONCE_SIZE && PaddingOk(h, packet, padding)
    ensures r.Err? <==> h.enabled && |packet| >= BLOCK_SIZE && IsControl(packet[0])
                        && (|packet| + 2 + OVERHEAD + NONCE_SIZE > h.maxPacketSize || |packet| - BLOCK_SIZE > 0xFFFF)
    ensures r.Ok? ==> Decrypted(h, r.value) == Ok(packet)
    ensures r.Ok? && (!h.enabled || |packet| < BLOCK_SIZE || !IsControl(packet[0])) ==> |r.value| == |packet|
    ensures r.Ok? && h.enabled && |packet| >= BLOCK_SIZE && IsControl(packet[0]) ==>
      |packet| < |r.value| <= h.maxPacketSize
  {
    if !h.enabled { return Ok(packet); }
    if |packet| < BLOCK_SIZE { return Ok(packet); }
    var messageType := packet[0];
    var dst := h.ciphers.encipher(packet[..BLOCK_SIZE]);
    var remaining := packet[BLOCK_SIZE..];
    assert packet == packet[..BLOCK_SIZE] + remaining;
    if !IsControl(messageType) {
      DataRoundTrip(h, packet);
      return Ok(dst + remaining);
    }
    var headroom := h.MaxControlPacketSize() - |packet|;
    if headroom < 0 || |remaining| > 0xFFFF { return Err(TooLarge); }
    var plaintext := remaining;
    if headroom > 0 {
      plaintext := plaintext + padding;
    } else {
      assert plaintext + padding == plaintext;
    }
    plaintext := plaintext + Be16(|remaining|);
    ControlRoundTrip(h, packet, padding, nonce);
    return Ok(dst + h.ciphers.seal(nonce, plaintext) + nonce);
  }

  lemma DataRoundTrip(h: Handler, packet: Bytes)
    requires h.ciphers.Lawful() && h.enabled && |packet| >= BLOCK_SIZE && !IsControl(packet[0])
    ensures Decrypted(h, h.ciphers.encipher(packet[..BLOCK_SIZE]) + packet[BLOCK_SIZE..]) == Ok(packet)
  {
    var dst := h.ciphers.encipher(packet[..BLOCK_SIZE]) + packet[BLOCK_SIZE..];
    assert dst[..BLOCK_SIZE] == h.ciphers.encipher(packet[..BLOCK_SIZE]);
    assert dst[BLOCK_SIZE..] == packet[BLOCK_SIZE..];
    assert packet[..BLOCK_SIZE] + packet[BLOCK_SIZE..] == packet;
  }

  lemma ControlRoundTrip(h: Handler, packet: Bytes, padding: Bytes, nonce: Bytes)
    requires h.ciphers.Lawful() && h.enabled && |packet| >= BLOCK_SIZE && IsControl(packet[0])
    requires |nonce| == NONCE_SIZE && |packet| - BLOCK_SIZE <= 0xFFFF
    ensures var payload := packet[BLOCK_SIZE..];
      var ct := h.ciphers.seal(nonce, payload + padding + Be16(|payload|));
      Decrypted(h, h.ciphers.encipher(packet[..BLOCK_SIZE]) + ct + nonce) == Ok(packet)
  {
    var payload := packet[BLOCK_SIZE..];
    var first := h.ciphers.encipher(packet[..BLOCK_SIZE]);
    var ct := h.ciphers.seal(nonce, payload + padding + Be16(|payload|));
    var dst := first + ct + nonce;
    var cut := |dst| - NONCE_SIZE;
    assert dst[..BLOCK_SIZE] == first && dst[cut..] == nonce && dst[BLOCK_SIZE..cut] == ct;
    PaddingRoundTrip(packet[..BLOCK_SIZE], payload, padding);
    assert packet[..BLOCK_SIZE] + payload == packet;
  }
}
