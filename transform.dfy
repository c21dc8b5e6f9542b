/** The repeating-key XOR that the batch applies to the bytes of every input file. */
module Transform {

  type Byte = bv8
  type Bytes = seq<Byte>

  /** The eight key bytes, in the order the code reads them out of the 64-bit key's memory. */
  type Key = k: seq<Byte> | |k| == 8 witness [0, 0, 0, 0, 0, 0, 0, 0]

  /** The key of the default option value "0000000000000000". */
  const ZERO_KEY: Key := [0, 0, 0, 0, 0, 0, 0, 0]

  /** `data` with byte i replaced by `data[i] ^ key[i % 8]`, built front to back as the loop visits the bytes. */
  function Xored(data: Bytes, key: Key): Bytes
    decreases |data|
  {
    if data == [] then []
    else Xored(data[..|data| - 1], key) + [data[|data| - 1] ^ key[(|data| - 1) % 8]]
  }

  /** The transform keeps the length and changes byte i by the key byte at position i mod 8 only. */
  lemma {:induction false} XoredAt(data: Bytes, key: Key)
    ensures |Xored(data, key)| == |data|
    ensures forall i :: 0 <= i < |data| ==> Xored(data, key)[i] == data[i] ^ key[i % 8]
  {
    if data != [] {
      XoredAt(data[..|data| - 1], key);
    }
  }

  /** Applying the transform twice with the same key gives back the original bytes. */
  lemma XoredInvolution(data: Bytes, key: Key)
    ensures Xored(Xored(data, key), key) == data
  {
    var once := Xored(data, key);
    XoredAt(data, key);
    XoredAt(once, key);
    forall i | 0 <= i < |data|
      ensures Xored(once, key)[i] == data[i]
    {
      assert once[i] == data[i] ^ key[i % 8];
    }
  }

  /** The all-zero key leaves every buffer as it is. */
  lemma XoredZeroKey(data: Bytes)
    ensures Xored(data, ZERO_KEY) == data
  {
    XoredAt(data, ZERO_KEY);
    forall i | 0 <= i < |data|
      ensures Xored(data, ZERO_KEY)[i] == data[i]
    {
      assert ZERO_KEY[i % 8] == 0;
    }
  }

  /** The bytes of a 64-bit key in memory order on a little-endian host: least significant byte first. */
  function KeyOfWord(w: bv64): Key
  {
    [ (w & 0xFF) as Byte, ((w >> 8) & 0xFF) as Byte, ((w >> 16) & 0xFF) as Byte, ((w >> 24) & 0xFF) as Byte,
      ((w >> 32) & 0xFF) as Byte, ((w >> 40) & 0xFF) as Byte, ((w >> 48) & 0xFF) as Byte, ((w >> 56) & 0xFF) as Byte ]
  }

  /** The 64-bit value whose little-endian memory image is `k`. */
  function WordOfKey(k: Key): bv64
  {
    (k[0] as bv64) | (k[1] as bv64 << 8) | (k[2] as bv64 << 16) | (k[3] as bv64 << 24)
    | (k[4] as bv64 << 32) | (k[5] as bv64 << 40) | (k[6] as bv64 << 48) | (k[7] as bv64 << 56)
  }

  /** Reading a 64-bit key as eight bytes loses nothing, in both directions. */
  lemma KeyWordRoundTrip(w: bv64, k: Key)
    ensures WordOfKey(KeyOfWord(w)) == w
    ensures KeyOfWord(WordOfKey(k)) == k
  {
  }

  /** The default key value 0 is the all-zero key, so by default the transform is the identity. */
  lemma DefaultKeyIsZero(data: Bytes)
    ensures KeyOfWord(0) == ZERO_KEY
    ensures Xored(data, KeyOfWord(0)) == data
  {
    XoredZeroKey(data);
  }

  /** Key 0xFF only changes byte 0 of every eight-byte block on a little-endian host. */
  lemma LowByteKeyExample()
    ensures Xored([0x01, 0x02, 0x03], KeyOfWord(0xFF)) == [0xFE, 0x02, 0x03]
    ensures Xored([0xFE, 0x02, 0x03], KeyOfWord(0xFF)) == [0x01, 0x02, 0x03]
  {
    var key := KeyOfWord(0xFF);
    assert key == [0xFF, 0, 0, 0, 0, 0, 0, 0];
    var data: Bytes := [0x01, 0x02, 0x03];
    XoredAt(data, key);
    var r := Xored(data, key);
    assert r[0] == 0xFE && r[1] == 0x02 && r[2] == 0x03;
    assert r == [0xFE, 0x02, 0x03];
    XoredInvolution(data, key);
  }

  /** The in-place loop over the buffer: afterwards the buffer holds the transform of what it held before. */
  method XorInPlace(a: array<Byte>, key: Key)
    modifies a
    ensures a[..] == Xored(old(a[..]), key)
  {
    for i := 0 to a.Length
      invariant forall j :: 0 <= j < i ==> a[j] == old(a[j]) ^ key[j % 8]
      invariant forall j :: i <= j < a.Length ==> a[j] == old(a[j])
    {
      a[i] := a[i] ^ key[i % 8];
    }
    XoredAt(old(a[..]), key);
  }
}
