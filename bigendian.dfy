/**
 * Unsigned big-endian integers of a fixed width, as Python's
 * `int.to_bytes(width, 'big')` writes them and `int.from_bytes(s, 'big')`
 * reads them back.
 */
module BigEndian {
  import opened Errors

  newtype byte = b: int | 0 <= b < 256

  /** 256 raised to the k-th power: the number of values k bytes can hold. */
  function Pow256(k: nat): (r: nat)
    ensures r >= 1
  {
    if k == 0 then 1 else 256 * Pow256(k - 1)
  }

  /** Eight bytes hold exactly the unsigned 64-bit range. */
  lemma Pow256Eight()
    ensures Pow256(8) == 0x1_0000_0000_0000_0000
  {
  }

  /**
   * `int.from_bytes(s, 'big')`: the most significant byte comes first.  It
   * accepts any length, none included (the empty sequence reads as 0).
   */
  function FromBytes(s: seq<byte>): nat {
    if s == [] then 0 else FromBytes(s[..|s| - 1]) * 256 + s[|s| - 1] as nat
  }

  /** `k` bytes read as a value below 256^k, so eight bytes never exceed the 64-bit range. */
  lemma {:induction false} FromBytesBound(s: seq<byte>)
    ensures FromBytes(s) < Pow256(|s|)
  {
    if s != [] {
      var high := FromBytes(s[..|s| - 1]);
      FromBytesBound(s[..|s| - 1]);
      assert high <= Pow256(|s| - 1) - 1;
      assert high * 256 <= Pow256(|s| - 1) * 256 - 256;
    }
  }

  /** The `width` low-order base-256 digits of `n`, most significant first. */
  function Digits(n: nat, width: nat): (r: seq<byte>)
    ensures |r| == width
  {
    if width == 0 then [] else Digits(n / 256, width - 1) + [(n % 256) as byte]
  }

  /**
   * `n.to_bytes(width, 'big')`: the big-endian digits of `n`, or the
   * OverflowError Python raises when `n` needs more than `width` bytes.
   */
  function ToBytes(n: nat, width: nat): (r: Result<seq<byte>>)
    ensures r.Ok? <==> n < Pow256(width)
    ensures r.Err? ==> r.error == Overflow
    ensures r.Ok? ==> |r.value| == width && FromBytes(r.value) == n
  {
    if n < Pow256(width) then
      FromBytesDigits(n, width);
      Ok(Digits(n, width))
    else
      Err(Overflow)
  }

  /** Reading back the digits of a value that fits gives the value. */
  lemma {:induction false} FromBytesDigits(n: nat, width: nat)
    requires n < Pow256(width)
    ensures FromBytes(Digits(n, width)) == n
  {
    if width > 0 {
      var d := Digits(n, width);
      assert n / 256 < Pow256(width - 1);
      FromBytesDigits(n / 256, width - 1);
      assert d[..|d| - 1] == Digits(n / 256, width - 1);
      assert FromBytes(d) == (n / 256) * 256 + n % 256;
    }
  }

  /** Every byte string is the digits of the value it reads as: the decoding is injective. */
  lemma {:induction false} DigitsFromBytes(s: seq<byte>)
    ensures Digits(FromBytes(s), |s|) == s
  {
    if s != [] {
      var init, last := s[..|s| - 1], s[|s| - 1];
      var v := FromBytes(s);
      assert v == FromBytes(init) * 256 + last as nat;
      assert v / 256 == FromBytes(init) && v % 256 == last as nat;
      DigitsFromBytes(init);
      assert s == init + [last];
    }
  }
}
