/**
 Integers as bytes, least significant byte first, as C stores them on the host and as Python's
 `struct` packs them with "<".
 */
module LittleEndian {

  type Byte = x: nat | x < 256
  type Bytes = seq<Byte>

  /** How many values `k` bytes can hold. */
  function Range(k: nat): (r: nat)
    ensures r > 0 && (k > 0 ==> r % 2 == 0)
  {
    if k == 0 then 1 else 256 * Range(k - 1)
  }

  /** The low `k` bytes of a number. */
  function Word(x: nat, k: nat): (b: Bytes)
    ensures |b| == k
  {
    if k == 0 then [] else [x % 256] + Word(x / 256, k - 1)
  }

  function Number(b: Bytes): nat {
    if b == [] then 0 else b[0] as nat + 256 * Number(b[1..])
  }

  /** The two's complement reading. */
  function Signed(b: Bytes): int {
    if 2 * Number(b) >= Range(|b|) then Number(b) - Range(|b|) else Number(b)
  }

  function SignedWord(x: int, k: nat): (b: Bytes)
    requires 0 <= 2 * x + Range(k) < 2 * Range(k)
    ensures |b| == k
  {
    Word(if x < 0 then x + Range(k) else x, k)
  }

  lemma {:induction false} WordRoundTrip(x: nat, k: nat)
    requires x < Range(k)
    ensures Number(Word(x, k)) == x
    decreases k
  {
    if k > 0 {
      WordRoundTrip(x / 256, k - 1);
      assert Word(x, k)[1..] == Word(x / 256, k - 1);
    }
  }

  lemma SignedRoundTrip(x: int, k: nat)
    requires k > 0 && 0 <= 2 * x + Range(k) < 2 * Range(k)
    ensures Signed(SignedWord(x, k)) == x
  {
    WordRoundTrip(if x < 0 then x + Range(k) else x, k);
  }
}
