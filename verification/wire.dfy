/** Byte strings and the fixed-width integer encodings shared by the three
    protocol components: the fields of the packed ctypes records (CommandBus,
    VideoStreaming), in native byte order, which is little-endian on the hosts
    the program runs on, and the big-endian words of the NTP header. */
module Wire {

  datatype Option<+T> = None | Some(value: T)

  datatype Result<+T, +E> = Ok(value: T) | Err(error: E)

  type Byte = x: int | 0 <= x < 256
  type Bytes = seq<Byte>

  /** 256 to the power n: the number of values an n-byte field holds. */
  function Pow256(n: nat): (r: nat)
    ensures r >= 1
  {
    if n == 0 then 1 else 256 * Pow256(n - 1)
  }

  /** The number of values of the 1-, 2- and 4-byte fields. */
  lemma FieldSizes()
    ensures Pow256(1) == 0x100 && Pow256(2) == 0x1_0000 && Pow256(4) == 0x1_0000_0000
  {
  }

  /** The value of a little-endian byte string. */
  function FromLE(s: Bytes): nat
  {
    if s == [] then 0 else s[0] + 256 * FromLE(s[1..])
  }

  /** The n low-order bytes of x, least significant first. */
  function ToLE(x: nat, n: nat): (r: Bytes)
    ensures |r| == n
  {
    if n == 0 then [] else [x % 256] + ToLE(x / 256, n - 1)
  }

  /** The value of a big-endian byte string. */
  function FromBE(s: Bytes): nat
  {
    if s == [] then 0 else FromBE(s[..|s| - 1]) * 256 + s[|s| - 1]
  }

  /** The n low-order bytes of x, most significant first. */
  function ToBE(x: nat, n: nat): (r: Bytes)
    ensures |r| == n
  {
    if n == 0 then [] else ToBE(x / 256, n - 1) + [x % 256]
  }

  lemma {:induction false} FromLEBound(s: Bytes)
    ensures FromLE(s) < Pow256(|s|)
  {
    if s != [] {
      FromLEBound(s[1..]);
    }
  }

  /** Encoding n bytes and reading them back gives the value, when it fits. */
  lemma {:induction false} LERoundTrip(x: nat, n: nat)
    requires x < Pow256(n)
    ensures FromLE(ToLE(x, n)) == x
  {
    if n > 0 {
      LERoundTrip(x / 256, n - 1);
      assert ToLE(x, n)[1..] == ToLE(x / 256, n - 1);
    }
  }

  /** Reading a byte string and encoding it again gives the same bytes. */
  lemma {:induction false} LEInverse(s: Bytes)
    ensures ToLE(FromLE(s), |s|) == s
  {
    if s != [] {
      LEInverse(s[1..]);
      var v := FromLE(s[1..]);
      assert (s[0] + 256 * v) % 256 == s[0];
      assert (s[0] + 256 * v) / 256 == v;
    }
  }

  lemma {:induction false} FromBEBound(s: Bytes)
    ensures FromBE(s) < Pow256(|s|)
  {
    if s != [] {
      FromBEBound(s[..|s| - 1]);
    }
  }

  lemma {:induction false} BERoundTrip(x: nat, n: nat)
    requires x < Pow256(n)
    ensures FromBE(ToBE(x, n)) == x
  {
    if n > 0 {
      BERoundTrip(x / 256, n - 1);
      var r := ToBE(x, n);
      assert r[..|r| - 1] == ToBE(x / 256, n - 1);
    }
  }

  lemma {:induction false} BEInverse(s: Bytes)
    ensures ToBE(FromBE(s), |s|) == s
  {
    if s != [] {
      var init := s[..|s| - 1];
      BEInverse(init);
      var v := FromBE(init);
      assert (v * 256 + s[|s| - 1]) % 256 == s[|s| - 1];
      assert (v * 256 + s[|s| - 1]) / 256 == v;
      assert s == init + [s[|s| - 1]];
    }
  }

  /** A run of n zero bytes. */
  function Zeros(n: nat): (r: Bytes)
    ensures |r| == n
    ensures forall i :: 0 <= i < n ==> r[i] == 0
  {
    seq(n, _ => 0)
  }

  function Min(a: int, b: int): (r: int)
    ensures r <= a && r <= b && (r == a || r == b)
  {
    if a <= b then a else b
  }
}
