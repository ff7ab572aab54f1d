/** Little-endian integers (common/protocol/endian_codec.hpp): byte loops and the bijection they compute. */
module Endian {
  import opened Prelude
  import Division

  const U8 := 1
  const U16 := 2
  const U32 := 4
  const U64 := 8

  function Power256(n: nat): (r: nat)
    ensures r > 0
  {
    if n == 0 then 1 else 256 * Power256(n - 1)
  }

  /** The integer a byte string denotes, least significant byte first. */
  function Load(s: Bytes): nat {
    if s == [] then 0 else s[0] + 256 * Load(s[1..])
  }

  /** The `width` low bytes of `v`; higher bits are cut off, as a cast to the wire width does. */
  function Store(v: nat, width: nat): (s: Bytes)
    ensures |s| == width
  {
    if width == 0 then [] else [v % 256] + Store(v / 256, width - 1)
  }

  lemma {:induction false} LoadBound(s: Bytes)
    ensures Load(s) < Power256(|s|)
  {
    if s != [] {
      LoadBound(s[1..]);
    }
  }

  lemma {:induction false} LoadOfStore(v: nat, width: nat)
    ensures v < Power256(width) ==> Load(Store(v, width)) == v
  {
    if width != 0 {
      LoadOfStore(v / 256, width - 1);
      assert Store(v, width)[1..] == Store(v / 256, width - 1);
    }
  }

  lemma {:induction false} StoreOfLoad(s: Bytes)
    ensures Store(Load(s), |s|) == s
  {
    if s != [] {
      StoreOfLoad(s[1..]);
      assert Load(s) / 256 == Load(s[1..]) && Load(s) % 256 == s[0];
      assert s == [s[0]] + s[1..];
    }
  }

  lemma {:induction false} LoadSnoc(s: Bytes, b: Byte)
    ensures Load(s + [b]) == Load(s) + b * Power256(|s|)
  {
    if s == [] {
      assert s + [b] == [b];
      assert Load([b]) == b + 256 * Load([]);
    } else {
      assert (s + [b])[1..] == s[1..] + [b];
      LoadSnoc(s[1..], b);
      calc {
        Load(s + [b]);
        s[0] + 256 * (Load(s[1..]) + b * Power256(|s| - 1));
        Load(s) + 256 * (b * Power256(|s| - 1));
        Load(s) + b * Power256(|s|);
      }
    }
  }

  lemma {:induction false} StoreSnoc(v: nat, width: nat)
    ensures Store(v, width + 1) == Store(v, width) + [(v / Power256(width)) % 256]
  {
    if width == 0 {
      assert Store(v, 1) == [v % 256] + Store(v / 256, 0);
    } else {
      StoreSnoc(v / 256, width - 1);
      Division.DivTwice(v, 256, Power256(width - 1));
    }
  }

  /** The i-th byte has weight 256 to the i. */
  lemma {:induction false} StoreAt(v: nat, width: nat, i: nat)
    requires i < width
    ensures Store(v, width)[i] == v / Power256(i) % 256
  {
    if i > 0 {
      StoreAt(v / 256, width - 1, i - 1);
      Division.DivTwice(v, 256, Power256(i - 1));
    }
  }

  lemma {:induction false} DivideOut(v: nat, width: nat)
    ensures v / Power256(width) / 256 == v / Power256(width + 1)
  {
    Division.DivTwice(v, Power256(width), 256);
  }

  /** Reads the first `width` bytes of `source`; refuses a shorter source. */
  method LoadLittleEndian(source: Bytes, width: nat) returns (ok: bool, value: nat)
    ensures ok <==> width <= |source|
    ensures ok ==> value == Load(source[..width]) < Power256(width)
  {
    if |source| < width {
      return false, 0;
    }
    value := 0;
    var weight: nat := 1;
    for index := 0 to width
      invariant weight == Power256(index)
      invariant value == Load(source[..index])
    {
      LoadSnoc(source[..index], source[index]);
      assert source[..index + 1] == source[..index] + [source[index]];
      value := value + source[index] * weight;
      weight := 256 * weight;
    }
    LoadBound(source[..width]);
    ok := true;
  }

  /** Fills the first `width` bytes of `target` and leaves the rest alone; refuses a shorter target. */
  method StoreLittleEndian(value: nat, target: array<Byte>, width: nat) returns (ok: bool)
    modifies target
    ensures ok <==> width <= target.Length
    ensures ok ==> target[..] == Store(value, width) + old(target[width..])
    ensures !ok ==> target[..] == old(target[..])
  {
    if target.Length < width {
      return false;
    }
    var weight: nat := 1;
    for index := 0 to width
      invariant weight == Power256(index)
      invariant target[..index] == Store(value, index)
      invariant target[width..] == old(target[width..])
    {
      StoreSnoc(value, index);
      target[index] := (value / weight) % 256;
      assert target[..index + 1] == target[..index] + [target[index]];
      weight := 256 * weight;
    }
    ok := true;
    assert target[..] == target[..width] + target[width..];
  }
}
