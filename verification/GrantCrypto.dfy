/** Encrypted token blobs: their four parts, and decryption undoing encryption (src/grant-crypto.ts). */
module GrantCrypto {
  import opened Wrappers
  import opened Utf8
  import opened Base64Url
  import opened Strings

  const VERSION := "v1"
  const MASTER_KEY_BYTES := 32

  /** "my-ax-oauth-token-v1" */
  const KEY_INFO: seq<Byte> := [109, 121, 45, 97, 120, 45, 111, 97, 117, 116, 104, 45, 116, 111, 107, 101, 110, 45, 118, 49]

  /** "v1|" */
  const AAD_PREFIX: seq<Byte> := [118, 49, 124]

  type Bytes = seq<Byte>

  type Text = seq<Scalar>

  /**
   The platform's primitives: HKDF key derivation from master key, salt and info, and AES-GCM over
   key, iv, associated data and text.  `lossy` is the decoder's answer to bytes that are not UTF-8.
   */
  datatype Crypto<!K> = Crypto(derive: (Bytes, Bytes, Bytes) -> K, seal: (K, Bytes, Bytes, Bytes) -> Bytes,
                               open: (K, Bytes, Bytes, Bytes) -> Option<Bytes>, lossy: Bytes -> Text)

  datatype CryptoError = BadMasterKey | MasterKeyTooShort | MalformedBlob | UnsupportedVersion | BadEncoding | OpenFailed

  function Info(scope: Text): Bytes { KEY_INFO + [0] + Encode(scope) }

  function Aad(scope: Text): Bytes { AAD_PREFIX + Encode(scope) }

  /** A base64 master key in either alphabet, at least 32 bytes long. */
  function ImportMasterKey(masterKey: string): Result<Bytes, CryptoError> {
    var raw := UrlDecode(Replace(Replace(Base64Url.Without(masterKey, '='), '+', '-'), '/', '_'));
    if raw.None? then Err(BadMasterKey)
    else if |raw.value| < MASTER_KEY_BYTES then Err(MasterKeyTooShort)
    else Ok(raw.value)
  }

  /** The platform's forgiving decoder, which drops a byte order mark at the start. */
  function DecodeText<K>(p: Crypto<K>, b: Bytes): Text {
    var s := Decode(b);
    if s.None? then p.lossy(b) else DropMark(s.value)
  }

  function DropMark(s: Text): Text { if s != [] && s[0] == 0xFEFF then s[1..] else s }

  function Parts(salt: Bytes, iv: Bytes, ct: Bytes): seq<string> { [VERSION, UrlEncode(salt), UrlEncode(iv), UrlEncode(ct)] }

  /** Salt and iv are the random bytes drawn for this value, 16 and 12 of them in the source. */
  function EncryptToken<K>(p: Crypto<K>, masterKey: string, scope: Text, plaintext: Text, salt: Bytes, iv: Bytes)
    : Result<string, CryptoError>
  {
    var master := ImportMasterKey(masterKey);
    if master.Err? then Err(master.error)
    else Ok(Join(Parts(salt, iv, p.seal(p.derive(master.value, salt, Info(scope)), iv, Aad(scope), Encode(plaintext))), '.'))
  }

  function DecryptToken<K>(p: Crypto<K>, masterKey: string, scope: Text, blob: string): Result<Text, CryptoError> {
    DecryptParts(p, masterKey, scope, Split(blob, '.'))
  }

  function DecryptParts<K>(p: Crypto<K>, masterKey: string, scope: Text, parts: seq<string>): Result<Text, CryptoError> {
    if |parts| != 4 then Err(MalformedBlob)
    else if parts[0] != VERSION then Err(UnsupportedVersion)
    else OpenParts(p, masterKey, scope, UrlDecode(parts[1]), UrlDecode(parts[2]), UrlDecode(parts[3]))
  }

  function OpenParts<K>(p: Crypto<K>, masterKey: string, scope: Text, salt: Option<Bytes>, iv: Option<Bytes>, ct: Option<Bytes>)
    : Result<Text, CryptoError>
  {
    if salt.None? || iv.None? || ct.None? then Err(BadEncoding)
    else
      var master := ImportMasterKey(masterKey);
      if master.Err? then Err(master.error)
      else
        var clear := p.open(p.derive(master.value, salt.value, Info(scope)), iv.value, Aad(scope), ct.value);
        if clear.None? then Err(OpenFailed) else Ok(DecodeText(p, clear.value))
  }

  /** The stored form: "v" and digits, then three non-empty parts of base64url letters, joined by dots. */
  predicate LooksEncrypted(value: string) {
    var parts := Split(value, '.');
    && |parts| == 4
    && |parts[0]| >= 2 && parts[0][0] == 'v' && (forall i :: 1 <= i < |parts[0]| ==> '0' <= parts[0][i] <= '9')
    && forall k :: 1 <= k < 4 ==> UrlWord(parts[k])
  }

  predicate UrlWord(s: string) { s != "" && forall i :: 0 <= i < |s| ==> UrlSafe(s[i]) }

  // ---------------------------------------------------------------- recognising blobs

  predicate Digits(s: string) { s != "" && forall i :: 0 <= i < |s| ==> '0' <= s[i] <= '9' }

  /** A "v", digits, and three words of letters, digits, "-" and "_", none of them empty, joined by dots and nothing else. */
  predicate Spells(value: string, version: string, a: string, b: string, c: string) {
    && value == "v" + version + "." + a + "." + b + "." + c
    && Digits(version) && UrlWord(a) && UrlWord(b) && UrlWord(c)
  }

  lemma FourJoined(p: string, a: string, b: string, c: string)
    ensures Join([p, a, b, c], '.') == p + "." + a + "." + b + "." + c
  {
    assert [p, a, b, c][1..] == [a, b, c] && [a, b, c][1..] == [b, c] && [b, c][1..] == [c];
    assert Join([c], '.') == c;
    assert Join([b, c], '.') == b + "." + c;
    assert Join([a, b, c], '.') == a + "." + (b + "." + c);
    assert Join([p, a, b, c], '.') == p + "." + (a + "." + (b + "." + c));
  }

  lemma SpelledIsRecognised(value: string, version: string, a: string, b: string, c: string)
    requires Spells(value, version, a, b, c)
    ensures LooksEncrypted(value)
  {
    var parts := ["v" + version, a, b, c];
    FourJoined("v" + version, a, b, c);
    assert FreeOf(parts, '.');
    SplitJoin(parts, '.');
  }

  lemma RecognisedIsSpelled(value: string)
    requires LooksEncrypted(value)
    ensures exists version, a, b, c :: Spells(value, version, a, b, c)
  {
    var parts := Split(value, '.');
    JoinSplit(value, '.');
    assert parts == [parts[0], parts[1], parts[2], parts[3]];
    FourJoined(parts[0], parts[1], parts[2], parts[3]);
    assert parts[0] == "v" + parts[0][1..];
    assert UrlWord(parts[1]) && UrlWord(parts[2]) && UrlWord(parts[3]);
    assert Spells(value, parts[0][1..], parts[1], parts[2], parts[3]);
  }

  /** A stored value is taken for a blob exactly if it has that form, so a plaintext token of any other form is left to be encrypted. */
  lemma RecognisedExactly(value: string)
    ensures LooksEncrypted(value) <==> exists version, a, b, c :: Spells(value, version, a, b, c)
    ensures '.' !in value ==> !LooksEncrypted(value)
  {
    if LooksEncrypted(value) { RecognisedIsSpelled(value); }
    if version, a, b, c :| Spells(value, version, a, b, c) { SpelledIsRecognised(value, version, a, b, c); }
    if '.' !in value { SplitWhole(value, '.'); }
  }

  // ---------------------------------------------------------------- blobs

  /** The constants are the bytes of the texts they stand for. */
  lemma ConstantsSpell()
    ensures KEY_INFO == Codes("my-ax-oauth-token-v1") && AAD_PREFIX == Codes(VERSION + "|")
  {
  }

  /** What is stored: the version, then salt, iv and ciphertext in base64url, in this order. */
  lemma BlobIsInOrder<K>(p: Crypto<K>, masterKey: string, scope: Text, plaintext: Text, salt: Bytes, iv: Bytes)
    ensures var master, blob := ImportMasterKey(masterKey), EncryptToken(p, masterKey, scope, plaintext, salt, iv);
            && (blob.Ok? <==> master.Ok?)
            && (master.Ok? ==>
                  var key := p.derive(master.value, salt, KEY_INFO + [0] + Encode(scope));
                  Split(blob.value, '.') == [VERSION, UrlEncode(salt), UrlEncode(iv),
                                             UrlEncode(p.seal(key, iv, AAD_PREFIX + Encode(scope), Encode(plaintext)))])
  {
    if ImportMasterKey(masterKey).Ok? {
      var key := p.derive(ImportMasterKey(masterKey).value, salt, Info(scope));
      var ct := p.seal(key, iv, Aad(scope), Encode(plaintext));
      BlobSplits(salt, iv, ct);
      assert Parts(salt, iv, ct) == [VERSION, UrlEncode(salt), UrlEncode(iv), UrlEncode(ct)];
    }
  }

  /** A blob splits back into exactly the four parts it was joined from. */
  lemma BlobSplits(salt: Bytes, iv: Bytes, ct: Bytes)
    ensures Split(Join(Parts(salt, iv, ct), '.'), '.') == Parts(salt, iv, ct)
  {
    EncodedIsUrlSafe(salt);
    EncodedIsUrlSafe(iv);
    EncodedIsUrlSafe(ct);
    assert FreeOf(Parts(salt, iv, ct), '.');
    SplitJoin(Parts(salt, iv, ct), '.');
  }

  /** Every blob is recognised, given that salt, iv and ciphertext are not empty; AES-GCM adds a 16-byte tag. */
  lemma BlobLooksEncrypted(salt: Bytes, iv: Bytes, ct: Bytes)
    ensures LooksEncrypted(Join(Parts(salt, iv, ct), '.')) <==> salt != [] && iv != [] && ct != []
  {
    BlobSplits(salt, iv, ct);
    EncodedIsUrlSafe(salt);
    EncodedIsUrlSafe(iv);
    EncodedIsUrlSafe(ct);
    var parts := Parts(salt, iv, ct);
    assert parts[1] == UrlEncode(salt) && parts[2] == UrlEncode(iv) && parts[3] == UrlEncode(ct);
  }

  lemma BlobDecodes(salt: Bytes, iv: Bytes, ct: Bytes)
    ensures var parts := Split(Join(Parts(salt, iv, ct), '.'), '.');
            && |parts| == 4 && parts[0] == VERSION
            && UrlDecode(parts[1]) == Some(salt) && UrlDecode(parts[2]) == Some(iv) && UrlDecode(parts[3]) == Some(ct)
  {
    BlobSplits(salt, iv, ct);
    DecodeUndoesEncode(salt);
    DecodeUndoesEncode(iv);
    DecodeUndoesEncode(ct);
  }

  lemma FourPartsOpen<K>(p: Crypto<K>, masterKey: string, scope: Text, parts: seq<string>)
    ensures |parts| == 4 && parts[0] == VERSION ==>
              DecryptParts(p, masterKey, scope, parts) ==
              OpenParts(p, masterKey, scope, UrlDecode(parts[1]), UrlDecode(parts[2]), UrlDecode(parts[3]))
  {
  }

  lemma PartsOpen<K>(p: Crypto<K>, masterKey: string, scope: Text, salt: Bytes, iv: Bytes, ct: Bytes)
    ensures ImportMasterKey(masterKey).Ok? ==>
              var clear := p.open(p.derive(ImportMasterKey(masterKey).value, salt, Info(scope)), iv, Aad(scope), ct);
              OpenParts(p, masterKey, scope, Some(salt), Some(iv), Some(ct)) ==
              if clear.None? then Err(OpenFailed) else Ok(DecodeText(p, clear.value))
  {
  }

  /** Decrypting under any scope opens exactly the ciphertext, iv and salt of the blob, with that scope's key and associated data. */
  lemma DecryptOpens<K>(p: Crypto<K>, masterKey: string, scope: Text, salt: Bytes, iv: Bytes, ct: Bytes)
    requires ImportMasterKey(masterKey).Ok?
    ensures var clear := p.open(p.derive(ImportMasterKey(masterKey).value, salt, Info(scope)), iv, Aad(scope), ct);
            DecryptToken(p, masterKey, scope, Join(Parts(salt, iv, ct), '.')) ==
            if clear.None? then Err(OpenFailed) else Ok(DecodeText(p, clear.value))
  {
    BlobDecodes(salt, iv, ct);
    FourPartsOpen(p, masterKey, scope, Split(Join(Parts(salt, iv, ct), '.'), '.'));
    PartsOpen(p, masterKey, scope, salt, iv, ct);
  }

  lemma Decoded<K>(p: Crypto<K>, plaintext: Text)
    ensures DecodeText(p, Encode(plaintext)) == DropMark(plaintext)
    ensures DropMark(plaintext) == plaintext <==> !(plaintext != [] && plaintext[0] == 0xFEFF)
  {
    DecodeEncoded(plaintext);
    if plaintext != [] { assert |plaintext[1..]| < |plaintext|; }
  }

  /** If opening undoes sealing, decrypting undoes encrypting, but for a byte order mark at the start of the plaintext. */
  lemma DecryptUndoesEncrypt<K>(p: Crypto<K>, masterKey: string, scope: Text, plaintext: Text, salt: Bytes, iv: Bytes)
    requires ImportMasterKey(masterKey).Ok?
    requires var key := p.derive(ImportMasterKey(masterKey).value, salt, Info(scope));
             p.open(key, iv, Aad(scope), p.seal(key, iv, Aad(scope), Encode(plaintext))) == Some(Encode(plaintext))
    ensures var blob := EncryptToken(p, masterKey, scope, plaintext, salt, iv);
            && blob.Ok?
            && DecryptToken(p, masterKey, scope, blob.value) == Ok(DropMark(plaintext))
            && (DecryptToken(p, masterKey, scope, blob.value) == Ok(plaintext) <==> !(plaintext != [] && plaintext[0] == 0xFEFF))
  {
    var key := p.derive(ImportMasterKey(masterKey).value, salt, Info(scope));
    var ct := p.seal(key, iv, Aad(scope), Encode(plaintext));
    assert EncryptToken(p, masterKey, scope, plaintext, salt, iv) == Ok(Join(Parts(salt, iv, ct), '.'));
    DecryptOpens(p, masterKey, scope, salt, iv, ct);
    Decoded(p, plaintext);
  }

  /** Two scopes never share associated data or key-derivation info. */
  lemma ScopesAreBound(scope: Text, other: Text)
    ensures Aad(scope) == Aad(other) ==> scope == other
    ensures Info(scope) == Info(other) ==> scope == other
  {
    if Aad(scope) == Aad(other) {
      assert Encode(scope) == Aad(scope)[|AAD_PREFIX|..] && Encode(other) == Aad(other)[|AAD_PREFIX|..];
    }
    if Info(scope) == Info(other) {
      assert Encode(scope) == Info(scope)[|KEY_INFO| + 1..] && Encode(other) == Info(other)[|KEY_INFO| + 1..];
    }
    DecodeEncoded(scope);
    DecodeEncoded(other);
  }

  // ---------------------------------------------------------------- master keys

  lemma SafeStays(s: string)
    requires forall i :: 0 <= i < |s| ==> UrlSafe(s[i])
    ensures Replace(Replace(Base64Url.Without(s, '='), '+', '-'), '/', '_') == s
  {
    WithoutNone(s, '=');
  }

  /** Written in the standard alphabet with padding or as base64url, 32 bytes or more are imported as they are, and fewer are refused. */
  lemma MasterKeyImports(raw: Bytes)
    ensures ImportMasterKey(Btoa(raw)) == ImportMasterKey(UrlEncode(raw)) ==
            if |raw| >= 32 then Ok(raw) else Err(MasterKeyTooShort)
  {
    DecodeUndoesEncode(raw);
    EncodedIsUrlSafe(raw);
    SafeStays(UrlEncode(raw));
  }

  lemma {:induction false} WithoutKeeps(s: string, c: char, d: char)
    requires c in s && c != d
    ensures c in Base64Url.Without(s, d)
  {
    if s[0] != c {
      assert c in s[1..];
      WithoutKeeps(s[1..], c, d);
    }
  }

  /** A master key with a character of no base64 alphabet is refused as such. */
  lemma ForeignKeyIsRefused(masterKey: string, c: char)
    requires c in masterKey && Foreign(c)
    ensures ImportMasterKey(masterKey) == Err(BadMasterKey)
  {
    var plain := Base64Url.Without(masterKey, '=');
    WithoutKeeps(masterKey, c, '=');
    ReplaceKeeps(plain, c, '+', '-');
    ReplaceKeeps(Replace(plain, '+', '-'), c, '/', '_');
    ForeignIsRefused(Replace(Replace(plain, '+', '-'), '/', '_'), c);
  }

  ghost predicate Undecodable(parts: seq<string>)
    requires |parts| == 4
  {
    UrlDecode(parts[1]).None? || UrlDecode(parts[2]).None? || UrlDecode(parts[3]).None?
  }

  lemma OpeningRefuses<K>(p: Crypto<K>, masterKey: string, scope: Text, salt: Option<Bytes>, iv: Option<Bytes>, ct: Option<Bytes>)
    ensures var r := OpenParts(p, masterKey, scope, salt, iv, ct);
            && (r == Err(BadEncoding) <==> salt.None? || iv.None? || ct.None?)
            && (r == Err(BadMasterKey) || r == Err(MasterKeyTooShort) ==>
                  ImportMasterKey(masterKey).Err? && r.error == ImportMasterKey(masterKey).error)
            && (r.Ok? || r == Err(OpenFailed) ==> ImportMasterKey(masterKey).Ok?)
            && r != Err(MalformedBlob) && r != Err(UnsupportedVersion)
  {
  }

  lemma PartsRefuse<K>(p: Crypto<K>, masterKey: string, scope: Text, parts: seq<string>)
    ensures var r := DecryptParts(p, masterKey, scope, parts);
            && (r == Err(MalformedBlob) <==> |parts| != 4)
            && (r == Err(UnsupportedVersion) <==> |parts| == 4 && parts[0] != "v1")
            && (r == Err(BadEncoding) <==> |parts| == 4 && parts[0] == "v1" && Undecodable(parts))
            && (r == Err(BadMasterKey) || r == Err(MasterKeyTooShort) ==>
                  ImportMasterKey(masterKey).Err? && r.error == ImportMasterKey(masterKey).error)
            && (r.Ok? || r == Err(OpenFailed) ==> ImportMasterKey(masterKey).Ok?)
  {
    if |parts| == 4 { OpeningRefuses(p, masterKey, scope, UrlDecode(parts[1]), UrlDecode(parts[2]), UrlDecode(parts[3])); }
  }

  /**
   Which fault a stored value is refused for, the first that applies: not four parts, another version, a part
   that is no base64url, the master key, or a ciphertext that does not open under this key and scope.
   */
  lemma DecryptRefusesExactly<K>(p: Crypto<K>, masterKey: string, scope: Text, blob: string)
    ensures var r, parts := DecryptToken(p, masterKey, scope, blob), Split(blob, '.');
            && (r == Err(MalformedBlob) <==> |parts| != 4)
            && (r == Err(UnsupportedVersion) <==> |parts| == 4 && parts[0] != "v1")
            && (r == Err(BadEncoding) <==> |parts| == 4 && parts[0] == "v1" && Undecodable(parts))
            && (r == Err(BadMasterKey) || r == Err(MasterKeyTooShort) ==>
                  ImportMasterKey(masterKey).Err? && r.error == ImportMasterKey(masterKey).error)
            && (r.Ok? || r == Err(OpenFailed) ==> ImportMasterKey(masterKey).Ok?)
  {
    PartsRefuse(p, masterKey, scope, Split(blob, '.'));
  }
}
