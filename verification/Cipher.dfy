/**
 Padding as in section 6.3 of RFC 5652, around an abstract AES block mode.  The mode is a pair
 of functions of key and data; `Lawful` is all that is assumed of it.
 */
module Cipher {
  import opened Common
  import opened Bytes

  const BLOCK_SIZE := 16

  /** "default@cctest", the key used when none is set. */
  const DEFAULT_KEY: seq<byte> := [100, 101, 102, 97, 117, 108, 116, 64, 99, 99, 116, 101, 115, 116]

  datatype BlockMode = BlockMode(enc: (seq<byte>, seq<byte>) -> seq<byte>, dec: (seq<byte>, seq<byte>) -> seq<byte>)

  ghost predicate Lawful(mode: BlockMode) {
    forall key, data {:trigger mode.enc(key, data)} :: |data| % BLOCK_SIZE == 0 ==>
      |mode.enc(key, data)| == |data| && mode.dec(key, mode.enc(key, data)) == data
  }

  datatype CipherError = BadKeySize | NotWholeBlocks

  function Padding(data: seq<byte>): (r: seq<byte>)
    ensures |r| % BLOCK_SIZE == 0 && |r| > |data|
  {
    var n: byte := BLOCK_SIZE - |data| % BLOCK_SIZE;
    data + seq(n, _ => n)
  }

  function UnPadding(data: seq<byte>): seq<byte>
    requires data != []
  {
    var n := data[|data| - 1];
    if n >= |data| then [] else data[..|data| - n]
  }

  function UsedKey(key: Option<seq<byte>>): seq<byte> {
    match key case None => DEFAULT_KEY case Some(k) => k
  }

  /** `aes.NewCipher` takes keys of 16, 24 or 32 bytes. */
  predicate KeyOk(key: Option<seq<byte>>) {
    |UsedKey(key)| in {16, 24, 32}
  }

  function Encrypt(mode: BlockMode, data: seq<byte>, key: Option<seq<byte>>): Result<seq<byte>, CipherError> {
    if !KeyOk(key) then Err(BadKeySize) else Ok(mode.enc(UsedKey(key), Padding(data)))
  }

  /** The source indexes the last byte of the plain text, so the caller never passes an empty text. */
  function Decrypt(mode: BlockMode, data: seq<byte>, key: Option<seq<byte>>): Result<seq<byte>, CipherError>
    requires data != []
  {
    if !KeyOk(key) then Err(BadKeySize)
    else if |data| % BLOCK_SIZE != 0 then Err(NotWholeBlocks)
    else
      var plain := mode.dec(UsedKey(key), data);
      if plain == [] then Ok([]) else Ok(UnPadding(plain))
  }

  lemma PaddingRoundTrip(data: seq<byte>)
    ensures UnPadding(Padding(data)) == data
  {
    var p := Padding(data);
    assert p[|p| - 1] == BLOCK_SIZE - |data| % BLOCK_SIZE;
    if p[|p| - 1] >= |p| { assert data == []; }
  }

  /** A text survives exactly when the key is usable. */
  lemma CipherRoundTrip(mode: BlockMode, data: seq<byte>, key: Option<seq<byte>>)
    requires Lawful(mode)
    ensures Encrypt(mode, data, key).Ok? <==> KeyOk(key)
    ensures KeyOk(key) ==> var sealed := Encrypt(mode, data, key).value;
      |data| < |sealed| <= |data| + BLOCK_SIZE && Decrypt(mode, sealed, key) == Ok(data)
  {
    PaddingRoundTrip(data);
    var sealed := mode.enc(UsedKey(key), Padding(data));
    assert |sealed| == |Padding(data)|;
  }

  /** The built-in default key has 14 bytes, so encryption without a key of one's own always fails. */
  lemma DefaultKeyUnusable(mode: BlockMode, data: seq<byte>)
    ensures Encrypt(mode, data, None) == Err(BadKeySize)
  {}

  /** The padding of section 6.3 of RFC 5652: 1 to 16 bytes up to a whole block, each of them saying how many. */
  lemma PaddingBytes(data: seq<byte>)
    ensures var p := Padding(data); var n := |p| - |data|;
      1 <= n <= 16 && |p| % 16 == 0 && p[..|data|] == data && forall k :: |data| <= k < |p| ==> p[k] == n
  {}

  /** What a text that is not sealed with the key is refused for. */
  lemma DecryptFails(mode: BlockMode, data: seq<byte>, key: Option<seq<byte>>)
    requires data != []
    ensures Decrypt(mode, data, key) == Err(BadKeySize) <==> |UsedKey(key)| !in {16, 24, 32}
    ensures Decrypt(mode, data, key) == Err(NotWholeBlocks) <==> |UsedKey(key)| in {16, 24, 32} && |data| % 16 != 0
  {}
}
