/**
 * The address resolver of src/utils/peer.rs. `parse_peer_id` reads the peer id
 * that ends a textual multiaddress such as `/ip4/10.0.0.1/tcp/4001/p2p/<id>`:
 * it splits the text on "/p2p/", keeps the last piece, base58-decodes it and
 * hands the bytes to `PeerId::from_bytes`.
 *
 * Base58 (Bitcoin alphabet), `PeerId::from_bytes` and `Multiaddr::from_str`
 * live in libraries. They are the function-valued fields of `Codec`, and
 * `Lawful` holds the only facts about them that the proofs rely on.
 */
module Peer {
  import opened Wrappers
  import opened StrSplit

  newtype byte = b: int | 0 <= b < 256

  /** A peer id: the multihash of the peer's public key (`to_bytes` gives it back). */
  datatype PeerId = PeerId(multihash: seq<byte>)

  /** A multiaddress, held in its textual form. */
  type Multiaddr = string

  /** The library functions the node calls but whose code is not part of this model. */
  datatype Codec = Codec(
    base58Decode: string -> Option<seq<byte>>,
    base58Encode: seq<byte> -> string,
    peerIdFromBytes: seq<byte> -> Option<PeerId>,
    multiaddrFromStr: string -> Option<Multiaddr>)

  /**
   * Decoding undoes encoding, base58 text never contains '/', and whatever
   * `from_bytes` accepts it turns into the peer id with exactly those bytes.
   * Which byte strings it accepts (the well-formed multihashes) is left open.
   */
  ghost predicate Lawful(c: Codec) {
    && (forall bytes :: c.base58Decode(c.base58Encode(bytes)) == Some(bytes))
    && (forall bytes :: '/' !in c.base58Encode(bytes))
    && (forall bytes :: c.peerIdFromBytes(bytes).Some? ==> c.peerIdFromBytes(bytes).value.multihash == bytes)
  }

  /**
   * A peer id whose bytes `from_bytes` accepts. Every `PeerId` libp2p builds,
   * such as the one derived from the node's key pair, is one of these.
   */
  predicate ValidPeerId(c: Codec, id: PeerId) {
    c.peerIdFromBytes(id.multihash).Some?
  }

  /** The delimiter between a multiaddress and the peer id it names. */
  const P2pDelimiter: string := "/p2p/"

  /** Why `parse_peer_id` gave up: the `ok_or` message, a base58 error, a `PeerId` parse error. */
  datatype PeerIdError = MissingSegment | InvalidBase58 | InvalidPeerId

  /** `PeerId::to_string`: the base58 text of the peer id's bytes. */
  function PeerIdText(c: Codec, id: PeerId): string {
    c.base58Encode(id.multihash)
  }

  /**
   * `bs58::decode(text).into_vec()?` followed by `PeerId::from_bytes(&buf)?`:
   * the base58 error comes first, the `PeerId` error only for bytes that decode,
   * and success hands back the id `from_bytes` built.
   */
  function DecodePeerId(c: Codec, text: string): (r: Result<PeerId, PeerIdError>)
    ensures r != Err(MissingSegment)
    ensures r == Err(InvalidBase58) <==> c.base58Decode(text).None?
    ensures r == Err(InvalidPeerId) <==>
      c.base58Decode(text).Some? && c.peerIdFromBytes(c.base58Decode(text).value).None?
    ensures r.Ok? ==>
      c.base58Decode(text).Some? && c.peerIdFromBytes(c.base58Decode(text).value) == Some(r.value)
  {
    match c.base58Decode(text)
    case None => Err(InvalidBase58)
    case Some(buf) =>
      match c.peerIdFromBytes(buf)
      case None => Err(InvalidPeerId)
      case Some(id) => Ok(id)
  }

  /**
   * `parse_peer_id`. The `ok_or("Cannot parse peer id.")` branch is unreachable,
   * since a split always yields at least one piece, and what is decoded is the
   * last segment alone.
   */
  function ParsePeerId(c: Codec, addr: string): (r: Result<PeerId, PeerIdError>)
    ensures r != Err(MissingSegment)
    ensures r == DecodePeerId(c, LastSegment(addr, P2pDelimiter))
  {
    match Last(Split(addr, P2pDelimiter))
    case None => Err(MissingSegment)
    case Some(segment) => DecodePeerId(c, segment)
  }

  /** `Ok(id)` exactly when both base58 decoding and `from_bytes` succeed, with `from_bytes`'s id. */
  lemma ParseOkExactlyWhenBothStepsSucceed(c: Codec, addr: string)
    ensures var decoded := c.base58Decode(LastSegment(addr, P2pDelimiter));
      ParsePeerId(c, addr).Ok? <==> decoded.Some? && c.peerIdFromBytes(decoded.value).Some?
    ensures var decoded := c.base58Decode(LastSegment(addr, P2pDelimiter));
      ParsePeerId(c, addr).Ok? ==> ParsePeerId(c, addr).value == c.peerIdFromBytes(decoded.value).value
  {
  }

  /**
   * A base58 failure ends the parse with `InvalidBase58` before `from_bytes`
   * is reached: any other `from_bytes` gives the same result.
   */
  lemma Base58FailureSkipsFromBytes(c: Codec, addr: string, otherFromBytes: seq<byte> -> Option<PeerId>)
    requires c.base58Decode(LastSegment(addr, P2pDelimiter)).None?
    ensures ParsePeerId(c, addr) == Err(InvalidBase58)
    ensures ParsePeerId(c.(peerIdFromBytes := otherFromBytes), addr) == Err(InvalidBase58)
  {
  }

  /** Without "/p2p/" anywhere, the whole input goes to the base58 decoder. */
  lemma WholeInputWithoutDelimiter(c: Codec, addr: string)
    requires !Contains(addr, P2pDelimiter)
    ensures ParsePeerId(c, addr) == DecodePeerId(c, addr)
  {
    LastSegmentWhenAbsent(addr, P2pDelimiter);
  }

  /**
   * The text before the final "/p2p/" has no effect: for any prefix that does
   * not itself end in "/p2p" and any tail without '/', only the tail is
   * decoded. For some prefixes that do end in "/p2p", such as "/p2p" itself,
   * the scan cuts one match earlier.
   */
  lemma {:induction false} PrefixIgnored(c: Codec, prefix: string, tail: string)
    requires !EndsWith(prefix, "/p2p")
    requires '/' !in tail
    ensures ParsePeerId(c, prefix + P2pDelimiter + tail) == DecodePeerId(c, tail)
  {
    var s := prefix + P2pDelimiter + tail;
    var m := |prefix|;
    assert s[m..m + 5] == P2pDelimiter;
    forall j: nat | m < j + 5 && j != m ensures !MatchAt(s, P2pDelimiter, j) {
      if j + 5 <= |s| {
        var w := s[j..j + 5];
        if j > m {
          assert s[j + 4] == tail[j + 4 - m - 5];
          assert w[4] != P2pDelimiter[4];
        } else if j == m - 4 {
          assert w[..4] == prefix[m - 4..];
          assert w[..4] != P2pDelimiter[..4];
        } else {
          assert s[m] == '/';
          assert w[m - j] != P2pDelimiter[m - j];
        }
      }
    }
    LastSegmentAfterIsolatedMatch(s, P2pDelimiter, m);
    assert s[m + 5..] == tail;
  }

  /**
   * Round trip: the text `address + "/p2p/" + id.to_string()` parses back to `id`
   * whenever `address` does not end in "/p2p" and `from_bytes` accepts the id's bytes.
   */
  lemma {:induction false} RoundTrip(c: Codec, address: Multiaddr, id: PeerId)
    requires Lawful(c) && ValidPeerId(c, id)
    requires !EndsWith(address, "/p2p")
    ensures ParsePeerId(c, address + P2pDelimiter + PeerIdText(c, id)) == Ok(id)
  {
    PrefixIgnored(c, address, PeerIdText(c, id));
    assert c.peerIdFromBytes(id.multihash).value.multihash == id.multihash;
  }

  /**
   * The `PeerId::from_bytes(&buf)?` error path: bytes that are valid base58
   * but not a multihash `from_bytes` accepts give `InvalidPeerId`.
   */
  lemma {:induction false} RejectedBytesGiveInvalidPeerId(c: Codec, address: Multiaddr, bytes: seq<byte>)
    requires Lawful(c) && c.peerIdFromBytes(bytes).None?
    requires !EndsWith(address, "/p2p")
    ensures ParsePeerId(c, address + P2pDelimiter + c.base58Encode(bytes)) == Err(InvalidPeerId)
  {
    PrefixIgnored(c, address, c.base58Encode(bytes));
  }

  /**
   * Why the round trip needs its condition on the prefix: the scan takes the
   * first of two overlapping matches, so after "/p2p/p2p/" the last segment
   * starts with "p2p/" (a right-to-left split would give the tail alone).
   */
  lemma {:induction false} OverlappingMatchKeepsP2pInSegment(tail: string)
    requires '/' !in tail
    ensures LastSegment("/p2p/p2p/" + tail, P2pDelimiter) == "p2p/" + tail
  {
    var rest := "p2p/" + tail;
    var s := P2pDelimiter + rest;
    assert s == "/p2p/p2p/" + tail;
    assert MatchAt(s, P2pDelimiter, 0);
    assert FindFrom(s, P2pDelimiter, 0) == Some(0);
    LastSegmentOfRest(s, P2pDelimiter, 0);
    assert s[5..] == rest;
    NoDelimiterAfterP2p(tail);
    LastSegmentWhenAbsent(rest, P2pDelimiter);
  }

  lemma NoDelimiterAfterP2p(tail: string)
    requires '/' !in tail
    ensures !Contains("p2p/" + tail, P2pDelimiter)
  {
    var rest := "p2p/" + tail;
    forall j: nat ensures !MatchAt(rest, P2pDelimiter, j) {
      if j + 5 <= |rest| {
        var w := rest[j..j + 5];
        if j == 3 {
          assert w[4] == tail[3];
        } else if j < 3 {
          assert w[0] == "p2p"[j];
        } else {
          assert w[0] == tail[j - 4];
        }
      }
    }
  }
}
