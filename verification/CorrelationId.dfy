/**
  The correlation id of a RequestReply (pkg/requestreply/correlation_id.go and cesql.go):
  <event id>:<base64 of nonce and sealed event id>:<pod index>.
 */
module CorrelationId {
  import opened Wrappers
  import opened Text
  import opened Base64

  const COLON: Byte := 58
  const NONCE_SIZE: nat := 12
  const INT32: nat := 0x8000_0000

  /** AES-GCM: seal(key, nonce, plain) and open(key, nonce, cipher), which may fail. */
  datatype Aead = Aead(seal: (Bytes, Bytes, Bytes) -> Bytes, open: (Bytes, Bytes, Bytes) -> Option<Bytes>)

  ghost predicate Lawful(aead: Aead) {
    forall k, n, p :: aead.open(k, n, aead.seal(k, n, p)) == Some(p)
  }

  /** aes.NewCipher accepts keys of 16, 24 or 32 bytes. */
  predicate UsableKey(key: Bytes) { |key| in {16, 24, 32} }

  function Print(id: Bytes, sealed: Bytes, idx: int): Bytes {
    id + [COLON] + (Encode(URL_ENCODING, sealed) + [COLON] + PrintInt(idx))
  }

  /** SetCorrelationId for a given random nonce: the attribute it sets, or None for its error. */
  function SetCorrelationId(aead: Aead, id: Bytes, key: Bytes, nonce: Bytes, idx: int): Option<Bytes>
    requires |nonce| == NONCE_SIZE
  {
    if !UsableKey(key) then None else Some(Print(id, nonce + aead.seal(key, nonce, id), idx))
  }

  /** VerifyReplyId: None is its error result. */
  function VerifyReplyId(aead: Aead, replyId: Bytes, key: Bytes): Option<bool> {
    var parts := Split(replyId, COLON);
    if |parts| != 3 then None
    else match Decode(URL_ENCODING, parts[1])
         case None => None
         case Some(encrypted) =>
           if !UsableKey(key) || |encrypted| < NONCE_SIZE then None
           else match aead.open(key, encrypted[..NONCE_SIZE], encrypted[NONCE_SIZE..])
                case None => None
                case Some(decrypted) => Some(decrypted == parts[0])
  }

  predicate Verifies(aead: Aead, replyId: Bytes, key: Bytes) { VerifyReplyId(aead, replyId, key) == Some(true) }

  lemma TailHasNoColon(sealed: Bytes, idx: int)
    ensures COLON !in Encode(URL_ENCODING, sealed) && COLON !in PrintInt(idx)
  {
    UrlEncodingProper();
    EncodeAlphabet(URL_ENCODING, sealed);
    assert !InAlphabet(URL_ENCODING, COLON);
    var bound := if idx < 0 then 0 - idx else idx + 1;
    ParsePrintInt(idx, bound);
  }

  lemma PartsOfPrint(id: Bytes, sealed: Bytes, idx: int)
    requires COLON !in id
    ensures Split(Print(id, sealed, idx), COLON) == [id, Encode(URL_ENCODING, sealed), PrintInt(idx)]
  {
    TailHasNoColon(sealed, idx);
    SplitAt(id, COLON, Encode(URL_ENCODING, sealed) + [COLON] + PrintInt(idx));
    SplitAt(Encode(URL_ENCODING, sealed), COLON, PrintInt(idx));
    SplitWhole(PrintInt(idx), COLON);
  }

  lemma ColonBreaksPrint(id: Bytes, sealed: Bytes, idx: int)
    requires COLON in id
    ensures |Split(Print(id, sealed, idx), COLON)| != 3
  {
    TailHasNoColon(sealed, idx);
    var enc, num := Encode(URL_ENCODING, sealed), PrintInt(idx);
    SplitCount(Print(id, sealed, idx), COLON);
    CountAppend(id + [COLON], enc + [COLON] + num, COLON);
    CountAppend(id, [COLON], COLON);
    CountAppend(enc + [COLON], num, COLON);
    CountAppend(enc, [COLON], COLON);
    CountIsZero(id, COLON);
    CountIsZero(enc, COLON);
    CountIsZero(num, COLON);
  }

  /** A minted id verifies under its key exactly when the event id has no ':'; otherwise it is an error. */
  lemma MintedVerifiesIff(aead: Aead, id: Bytes, key: Bytes, nonce: Bytes, idx: int)
    requires Lawful(aead) && UsableKey(key) && |nonce| == NONCE_SIZE
    ensures
      var minted := SetCorrelationId(aead, id, key, nonce, idx).value;
      && (Verifies(aead, minted, key) <==> COLON !in id)
      && (COLON in id ==> VerifyReplyId(aead, minted, key).None?)
  {
    var sealed := nonce + aead.seal(key, nonce, id);
    if COLON in id {
      ColonBreaksPrint(id, sealed, idx);
    } else {
      PartsOfPrint(id, sealed, idx);
      UrlEncodingProper();
      DecodeEncode(URL_ENCODING, sealed);
      assert sealed[..NONCE_SIZE] == nonce && sealed[NONCE_SIZE..] == aead.seal(key, nonce, id);
    }
  }

  /** The reply id is id:text:last, where text decodes to a nonce and a cipher text that opens to id. */
  ghost predicate Sealed(aead: Aead, replyId: Bytes, key: Bytes, id: Bytes, text: Bytes, nonce: Bytes, cipher: Bytes,
                         last: Bytes) {
    var colon := ':' as int;
    && replyId == id + [colon] + text + [colon] + last && colon !in id && colon !in text && colon !in last
    && Decode(URL_ENCODING, text) == Some(nonce + cipher) && |nonce| == 12
    && (|key| == 16 || |key| == 24 || |key| == 32) && aead.open(key, nonce, cipher) == Some(id)
  }

  ghost predicate SealedFor(aead: Aead, replyId: Bytes, key: Bytes, id: Bytes) {
    exists text, nonce, cipher, last :: Sealed(aead, replyId, key, id, text, nonce, cipher, last)
  }

  /** A reply id verifies, minted or forged, if and only if the id it starts with is the one sealed in it. */
  lemma VerifiesIff(aead: Aead, replyId: Bytes, key: Bytes)
    ensures Verifies(aead, replyId, key) <==> exists id :: SealedFor(aead, replyId, key, id)
    ensures forall id | SealedFor(aead, replyId, key, id) :: id == Split(replyId, COLON)[0]
  {
    if Verifies(aead, replyId, key) {
      var parts := Split(replyId, COLON);
      var encrypted := Decode(URL_ENCODING, parts[1]).value;
      JoinSplit(replyId, COLON);
      JoinThree(parts, COLON);
      assert encrypted == encrypted[..NONCE_SIZE] + encrypted[NONCE_SIZE..];
      assert Sealed(aead, replyId, key, parts[0], parts[1], encrypted[..NONCE_SIZE], encrypted[NONCE_SIZE..], parts[2]);
      assert SealedFor(aead, replyId, key, parts[0]);
    }
    forall id, text, nonce, cipher, last | Sealed(aead, replyId, key, id, text, nonce, cipher, last)
      ensures Verifies(aead, replyId, key) && id == Split(replyId, COLON)[0]
    {
      SealedOpens(aead, replyId, key, id, id, text, nonce, cipher, last);
    }
  }

  /** What VerifyReplyId says of a text that opens to `sealed` under another first part. */
  lemma SealedOpens(aead: Aead, replyId: Bytes, key: Bytes, id: Bytes, sealed: Bytes, text: Bytes, nonce: Bytes,
                    cipher: Bytes,
                    last: Bytes)
    requires replyId == id + [COLON] + text + [COLON] + last && COLON !in id && COLON !in text && COLON !in last
    requires Decode(URL_ENCODING, text) == Some(nonce + cipher) && |nonce| == 12 && UsableKey(key)
    requires aead.open(key, nonce, cipher) == Some(sealed)
    ensures VerifyReplyId(aead, replyId, key) == Some(id == sealed) && Split(replyId, COLON) == [id, text, last]
  {
    SplitThree(id, text, last, COLON);
    assert (nonce + cipher)[..12] == nonce && (nonce + cipher)[12..] == cipher;
  }

  /** A reply id made of another event's id and a sealed part minted for this one is refused. */
  lemma ForgedIsRefused(aead: Aead, other: Bytes, id: Bytes, key: Bytes, nonce: Bytes, idx: int)
    requires Lawful(aead) && UsableKey(key) && |nonce| == NONCE_SIZE && COLON !in other && other != id
    ensures VerifyReplyId(aead, Print(other, nonce + aead.seal(key, nonce, id), idx), key) == Some(false)
  {
    var sealed := nonce + aead.seal(key, nonce, id);
    PartsOfPrint(other, sealed, idx);
    UrlEncodingProper();
    DecodeEncode(URL_ENCODING, sealed);
    assert sealed[..NONCE_SIZE] == nonce && sealed[NONCE_SIZE..] == aead.seal(key, nonce, id);
  }

  // ---------- routing replies to pods ----------

  /** Go's remainder: the sign of the dividend. */
  function Rem(a: int, b: int): int
    requires b != 0
  {
    var m := (if a < 0 then -a else a) % (if b < 0 then -b else b);
    if a < 0 then -m else m
  }

  lemma SmallMod(a: int, b: int)
    requires 0 <= a < b
    ensures a % b == a
  {
    var q, r := a / b, a % b;
    assert a == b * q + r;
    assert q >= 1 ==> b * q >= b;
    assert q <= -1 ==> b * q <= -b;
  }

  lemma RemRange(a: int, b: int)
    requires b > 0
    ensures if a >= 0 then 0 <= Rem(a, b) < b else -b < Rem(a, b) <= 0
    ensures 0 <= a < b ==> Rem(a, b) == a
    ensures exists q :: a == b * q + Rem(a, b)
  {
    var c := if a < 0 then -a else a;
    assert 0 <= c % b < b && c == b * (c / b) + c % b;
    assert a == b * (if a < 0 then -(c / b) else c / b) + Rem(a, b);
    if 0 <= a < b {
      SmallMod(a, b);
    }
  }

  predicate RoutedTo(idx: int, replicas: int, pod: int)
    requires replicas != 0
  {
    Rem(idx, replicas) == pod
  }

  /** Some pod takes the reply iff the index is not negative or is a multiple; then exactly one does. */
  lemma ExactlyOnePod(idx: int, replicas: int)
    requires replicas > 0
    ensures (exists pod | 0 <= pod < replicas :: RoutedTo(idx, replicas, pod)) <==> idx >= 0 || Rem(idx, replicas) == 0
    ensures forall p, q | 0 <= p < replicas && 0 <= q < replicas ::
      RoutedTo(idx, replicas, p) && RoutedTo(idx, replicas, q) ==> p == q
    ensures 0 <= idx < replicas ==> RoutedTo(idx, replicas, idx)
    ensures forall pod | RoutedTo(idx, replicas, pod) :: exists q :: idx == replicas * q + pod
  {
    RemRange(idx, replicas);
    var pod := Rem(idx, replicas);
    if idx >= 0 || pod == 0 {
      assert 0 <= pod < replicas && RoutedTo(idx, replicas, pod);
    }
  }

  /** The routing test of KN_VERIFY_CORRELATION_ID; its replica count must not be 0. */
  predicate PodTakes(replyId: Bytes, pod: int, replicas: int)
    requires replicas != 0
  {
    var parts := Split(replyId, COLON);
    |parts| == 3 && var idx := ParseInt(parts[2], INT32); idx.Some? && RoutedTo(idx.value, replicas, pod)
  }

  function KeyPrefix(namespace: Bytes, name: Bytes): Bytes { namespace + [46] + name + [46] }

  /** The names with the prefix are those of the resource's keys: namespace.name. and more. */
  lemma KeyPrefixIff(namespace: Bytes, name: Bytes, k: Bytes)
    ensures KeyPrefix(namespace, name) <= k
       <==> var n, m := |namespace|, |namespace| + 1 + |name|;
            && m < |k| && k[..n] == namespace && k[n] == '.' as int
            && k[n + 1..m] == name && k[m] == '.' as int
  {
    var n, m := |namespace|, |namespace| + 1 + |name|;
    var prefix := KeyPrefix(namespace, name);
    if prefix <= k {
      assert k[..n] == prefix[..n] && k[n + 1..m] == prefix[n + 1..m];
    }
    if m < |k| && k[..n] == namespace && k[n] == '.' as int && k[n + 1..m] == name && k[m] == '.' as int {
      assert prefix == k[..n] + [k[n]] + k[n + 1..m] + [k[m]] == k[..m + 1];
    }
  }

  predicate SomeKeyVerifies(aead: Aead, replyId: Bytes, prefix: Bytes, secret: map<Bytes, Bytes>) {
    exists k <- secret :: prefix <= k && Verifies(aead, replyId, secret[k])
  }

  /** The body of KN_VERIFY_CORRELATION_ID: the secret's keys are tried in any order. */
  method VerifyCorrelationId(aead: Aead, replyId: Bytes, name: Bytes, namespace: Bytes, secret: Option<map<Bytes,
                             Bytes>>,
                             pod: int, replicas: int) returns (r: bool)
    requires replicas != 0
    ensures r <==> && PodTakes(replyId, pod, replicas) && secret.Some?
                   && SomeKeyVerifies(aead, replyId, KeyPrefix(namespace, name), secret.value)
  {
    var parts := Split(replyId, COLON);
    if |parts| != 3 {
      return false;
    }
    var idx := ParseInt(parts[2], INT32);
    if idx.None? || Rem(idx.value, replicas) != pod || secret.None? {
      return false;
    }
    var todo := secret.value.Keys;
    while todo != {}
      invariant todo <= secret.value.Keys
      invariant forall k <- secret.value.Keys - todo ::
        !(KeyPrefix(namespace, name) <= k && Verifies(aead, replyId, secret.value[k]))
    {
      var k :| k in todo;
      if KeyPrefix(namespace, name) <= k && VerifyReplyId(aead, replyId, secret.value[k]) == Some(true) {
        return true;
      }
      todo := todo - {k};
    }
    r := false;
  }

  /** The key loop of handleReplyEvent. */
  method AnyKeyVerifies(aead: Aead, replyId: Bytes, keys: seq<Bytes>) returns (valid: bool)
    ensures valid <==> exists i | 0 <= i < |keys| :: Verifies(aead, replyId, keys[i])
  {
    for i := 0 to |keys|
      invariant forall j | 0 <= j < i :: !Verifies(aead, replyId, keys[j])
    {
      if VerifyReplyId(aead, replyId, keys[i]) == Some(true) {
        return true;
      }
    }
    valid := false;
  }

  /** A minted id comes back with its event id and index, and only the pod its index routes to takes it. */
  lemma MintedRoutesBack(aead: Aead, id: Bytes, key: Bytes, nonce: Bytes, idx: int, replicas: int, pod: int)
    requires UsableKey(key) && |nonce| == NONCE_SIZE && COLON !in id && replicas > 0
    requires 0 - INT32 <= idx < INT32
    ensures
      var minted := SetCorrelationId(aead, id, key, nonce, idx).value;
      && Split(minted, COLON)[0] == id
      && |Split(minted, COLON)| == 3 && ParseInt(Split(minted, COLON)[2], INT32) == Some(idx)
      && (PodTakes(minted, pod, replicas) <==> pod == Rem(idx, replicas))
      && (0 <= idx < replicas ==> PodTakes(minted, idx, replicas))
  {
    PartsOfPrint(id, nonce + aead.seal(key, nonce, id), idx);
    ParsePrintInt(idx, INT32);
    ExactlyOnePod(idx, replicas);
  }
}
