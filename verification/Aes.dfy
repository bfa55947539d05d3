/** The AES-256-GCM envelope: a current (v1) layout that carries a version byte, a
    legacy layout without it, and a Decrypt that tries the first and then the second.
    The cipher itself is a parameter, constrained only by `Lawful`. */
module Aes {
  import opened Prelude

  const KEY_SIZE := 32
  const NONCE_SIZE := 12
  const TAG_SIZE := 16
  const VERSION: byte := 1

  type Bytes = seq<byte>
  type Nonce = n: seq<byte> | |n| == NONCE_SIZE witness seq(NONCE_SIZE, i => 0)

  /** An authenticated cipher: key, nonce and text in, text out. */
  datatype Gcm = Gcm(
    seal: (Bytes, Bytes, Bytes) -> Bytes,
    open: (Bytes, Bytes, Bytes) -> Option<Bytes>
  )

  /** What the envelope relies on: opening undoes sealing, sealing appends a tag, and
      nothing shorter than a tag opens.  No unforgeability is assumed. */
  ghost predicate Lawful(g: Gcm) {
    && (forall k: Bytes, n: Bytes, p: Bytes :: |k| == KEY_SIZE && |n| == NONCE_SIZE ==>
          |g.seal(k, n, p)| == |p| + TAG_SIZE && g.open(k, n, g.seal(k, n, p)) == Some(p))
    && (forall k: Bytes, n: Bytes, c: Bytes :: |c| < TAG_SIZE ==> g.open(k, n, c) == None)
  }

  /** A blob in the current layout. */
  function V1Blob(g: Gcm, key: Bytes, nonce: Nonce, plaintext: Bytes): Bytes {
    [VERSION] + nonce + g.seal(key, nonce, plaintext)
  }

  /** A blob in the layout used before the version byte existed. */
  function LegacyBlob(g: Gcm, key: Bytes, nonce: Nonce, plaintext: Bytes): Bytes {
    nonce + g.seal(key, nonce, plaintext)
  }

  /** Encrypt; `random` is what the random source yields, None when it fails. */
  function Encrypt(g: Gcm, plaintext: Bytes, key: Bytes, random: Option<Nonce>): Option<Bytes> {
    if |key| != KEY_SIZE || random.None? then None else Some(V1Blob(g, key, random.value, plaintext))
  }

  /** The v1 interpretation of a blob, when it is eligible and authenticates. */
  function ReadV1(g: Gcm, blob: Bytes, key: Bytes): Option<Bytes> {
    if |blob| >= 1 + NONCE_SIZE + TAG_SIZE && blob[0] == VERSION
    then g.open(key, blob[1..1 + NONCE_SIZE], blob[1 + NONCE_SIZE..])
    else None
  }

  /** The legacy interpretation of a blob, when it authenticates. */
  function ReadLegacy(g: Gcm, blob: Bytes, key: Bytes): Option<Bytes>
    requires |blob| >= NONCE_SIZE
  {
    g.open(key, blob[..NONCE_SIZE], blob[NONCE_SIZE..])
  }

  function Decrypt(g: Gcm, blob: Bytes, key: Bytes): Option<Bytes> {
    if |key| != KEY_SIZE || |blob| < NONCE_SIZE then None
    else if ReadV1(g, blob, key).Some? then ReadV1(g, blob, key)
    else ReadLegacy(g, blob, key)
  }

  /** Encrypt as the source performs it: the version byte and the nonce are written into
      one buffer, and the sealed text is appended to that buffer. */
  method EncryptIntoBuffer(g: Gcm, plaintext: Bytes, key: Bytes, random: Option<Nonce>)
    returns (r: Option<Bytes>)
    ensures r == Encrypt(g, plaintext, key, random)
  {
    if |key| != KEY_SIZE {
      return None;
    }
    var out := new byte[1 + NONCE_SIZE];
    out[0] := VERSION;
    if random.None? {
      return None;
    }
    for i := 0 to NONCE_SIZE
      invariant out[0] == VERSION
      invariant out[1..1 + i] == random.value[..i]
    {
      out[1 + i] := random.value[i];
    }
    assert out[1..] == random.value;
    assert out[..] == [VERSION] + random.value;
    return Some(out[..] + g.seal(key, out[1..], plaintext));
  }

  /** The stored format: a blob begins with the byte 1, twelve bytes of nonce follow, then the
      sealed text with its tag of sixteen bytes; only keys of thirty-two bytes encrypt. */
  lemma StoredFormat(g: Gcm, plaintext: Bytes, key: Bytes, random: Option<Nonce>)
    requires Lawful(g)
    ensures Encrypt(g, plaintext, key, random).Some? <==> |key| == 32 && random.Some?
    ensures Encrypt(g, plaintext, key, random).Some? ==>
              var blob := Encrypt(g, plaintext, key, random).value;
              && |blob| == 1 + 12 + |plaintext| + 16
              && blob[0] == 1 && blob[1..13] == random.value && blob[13..] == g.seal(key, random.value, plaintext)
  {
    if |key| == 32 && random.Some? {
      var blob := V1Blob(g, key, random.value, plaintext);
      assert blob[1..13] == random.value && blob[13..] == g.seal(key, random.value, plaintext);
    }
  }

  /** The formats read, in terms of the bytes: with a key of thirty-two bytes, a blob of at least
      twenty-nine that begins with the byte 1 is opened behind the nonce at 1; if that fails,
      or it is no such blob, one of at least twelve bytes behind the nonce at 0. */
  lemma FormatsRead(g: Gcm, blob: Bytes, key: Bytes)
    ensures |key| != 32 || |blob| < 12 ==> Decrypt(g, blob, key) == None
    ensures |key| == 32 && |blob| >= 12 ==>
              Decrypt(g, blob, key) ==
              if |blob| >= 29 && blob[0] == 1 && g.open(key, blob[1..13], blob[13..]).Some?
              then g.open(key, blob[1..13], blob[13..])
              else g.open(key, blob[..12], blob[12..])
  {
  }

  /** Decrypt inverts Encrypt, for every plaintext, key and nonce. */
  lemma DecryptInvertsEncrypt(g: Gcm, plaintext: Bytes, key: Bytes, nonce: Nonce)
    requires Lawful(g) && |key| == KEY_SIZE
    ensures Decrypt(g, V1Blob(g, key, nonce, plaintext), key) == Some(plaintext)
  {
    var blob := V1Blob(g, key, nonce, plaintext);
    assert blob[1..1 + NONCE_SIZE] == nonce;
    assert blob[1 + NONCE_SIZE..] == g.seal(key, nonce, plaintext);
  }

  /** A legacy blob decrypts to its plaintext exactly when the v1 reading of the same
      bytes does not authenticate as something else; a first nonce byte other than the
      version byte is enough for that. */
  lemma LegacyDecryptsUnlessV1Authenticates(g: Gcm, plaintext: Bytes, key: Bytes, nonce: Nonce)
    requires Lawful(g) && |key| == KEY_SIZE
    ensures var blob := LegacyBlob(g, key, nonce, plaintext);
            && (Decrypt(g, blob, key) == Some(plaintext) <==>
                ReadV1(g, blob, key) in {None, Some(plaintext)})
            && (nonce[0] != VERSION ==> Decrypt(g, blob, key) == Some(plaintext))
  {
    var blob := LegacyBlob(g, key, nonce, plaintext);
    assert blob[..NONCE_SIZE] == nonce;
    assert blob[NONCE_SIZE..] == g.seal(key, nonce, plaintext);
  }

  /** Every success is an authenticated reading of the blob under one of the two layouts:
      the text handed back is what the cipher opened, under a nonce found in the blob. */
  lemma DecryptIsAuthenticated(g: Gcm, blob: Bytes, key: Bytes)
    requires Lawful(g) && Decrypt(g, blob, key).Some?
    ensures |key| == 32 && |blob| >= 28
    ensures || (blob[0] == 1 && |blob| >= 29 &&
                g.open(key, blob[1..13], blob[13..]) == Decrypt(g, blob, key))
            || g.open(key, blob[..12], blob[12..]) == Decrypt(g, blob, key)
  {
    assert |blob[NONCE_SIZE..]| == |blob| - NONCE_SIZE;
  }

  // A lawful cipher exists, and it shows that authenticity of the *other* reading is a
  // real hypothesis: lawfulness alone does not make the two layouts unambiguous.

  function KeyTag(key: Bytes): Bytes {
    seq(TAG_SIZE, i => if key == [] then 0 else key[0])
  }

  function Tagged(): Gcm {
    Gcm((k, n, p) => p + KeyTag(k),
        (k, n, c) => if |c| >= TAG_SIZE && c[|c| - TAG_SIZE..] == KeyTag(k)
                     then Some(c[..|c| - TAG_SIZE]) else None)
  }

  lemma TaggedIsLawful()
    ensures Lawful(Tagged())
  {
    var g := Tagged();
    forall k: Bytes, n: Bytes, p: Bytes
      ensures |g.seal(k, n, p)| == |p| + TAG_SIZE && g.open(k, n, g.seal(k, n, p)) == Some(p)
    {
      var c := p + KeyTag(k);
      assert c[|c| - TAG_SIZE..] == KeyTag(k) && c[..|c| - TAG_SIZE] == p;
    }
  }

  /** The family the hypothesis excludes is not empty. */
  lemma AmbiguousLegacyBlob()
    ensures exists g: Gcm, plaintext: Bytes, key: Bytes, nonce: Nonce ::
              Lawful(g) && |key| == KEY_SIZE &&
              Decrypt(g, LegacyBlob(g, key, nonce, plaintext), key) != Some(plaintext)
  {
    var g, key, plaintext := Tagged(), seq(KEY_SIZE, i => 0 as byte), [7 as byte];
    var nonce: Nonce := seq(NONCE_SIZE, i => 1 as byte);
    TaggedIsLawful();
    var blob := LegacyBlob(g, key, nonce, plaintext);
    assert blob[1 + NONCE_SIZE..] == KeyTag(key);
    assert ReadV1(g, blob, key) == Some([]) by {
      assert KeyTag(key)[0..] == KeyTag(key);
    }
    assert Decrypt(g, blob, key) != Some(plaintext);
  }
}
