/**
 The textual sort key of a comment thread (server/db/comment_repository.cpp): ten-digit ids joined by slashes, compared
 as byte strings. For ids below ten digits the textual order is the order of the id lists themselves.
 */
module ThreadPaths {
  import opened Prelude
  import opened TextOrder
  import Division

  const ID_WIDTH := 10
  const ID_LIMIT := 10_000_000_000

  function Digit(d: nat): char
    requires d < 10
  {
    '0' + d as char
  }

  function Decimal(n: nat): (s: string)
    ensures |s| > 0
  {
    if n < 10 then [Digit(n)] else Decimal(n / 10) + [Digit(n % 10)]
  }

  function Pad(s: string, width: nat): string
    decreases width - |s|
  {
    if |s| >= width then s else Pad(['0'] + s, width)
  }

  /** printf('%010d', id). */
  function Format(id: nat): string {
    Pad(Decimal(id), ID_WIDTH)
  }

  /** The last `width` decimal digits. */
  function Fixed(n: nat, width: nat): (s: string)
    ensures |s| == width
  {
    if width == 0 then [] else Fixed(n / 10, width - 1) + [Digit(n % 10)]
  }

  function Power10(w: nat): (r: nat)
    ensures r > 0
  {
    if w == 0 then 1 else 10 * Power10(w - 1)
  }

  lemma {:induction false} PadSnoc(s: string, c: char, width: nat)
    ensures Pad(s + [c], width + 1) == Pad(s, width) + [c]
    decreases width - |s|
  {
    if |s| < width {
      PadSnoc(['0'] + s, c, width);
      assert ['0'] + (s + [c]) == (['0'] + s) + [c];
    }
  }

  lemma {:induction false} PadIsFixed(n: nat, width: nat)
    requires width > 0 && n < Power10(width)
    ensures Pad(Decimal(n), width) == Fixed(n, width)
    decreases width
  {
    if n < 10 {
      ZeroIsFixed(width - 1);
      PadSnoc([], Digit(n), width - 1);
      assert [] + [Digit(n)] == [Digit(n)];
      PadZeros([], width - 1);
      assert n / 10 == 0;
    } else {
      assert width > 1 by { assert Power10(1) == 10 * Power10(0); }
      PadIsFixed(n / 10, width - 1);
      PadSnoc(Decimal(n / 10), Digit(n % 10), width - 1);
    }
  }

  lemma {:induction false} PadZeros(s: string, width: nat)
    requires |s| <= width
    ensures Pad(s, width) == seq(width - |s|, _ => '0') + s
    decreases width - |s|
  {
    if |s| < width {
      PadZeros(['0'] + s, width);
      assert seq(width - |s| - 1, _ => '0') + (['0'] + s) == seq(width - |s|, _ => '0') + s;
    }
  }

  lemma {:induction false} ZeroIsFixed(width: nat)
    ensures Fixed(0, width) == seq(width, _ => '0')
  {
    if width > 0 {
      ZeroIsFixed(width - 1);
    }
  }

  lemma TenDigits()
    ensures Power10(9) == 1_000_000_000 && Power10(10) == ID_LIMIT
  {
    assert Power10(2) == 10 * Power10(1) == 100;
    assert Power10(4) == 10 * Power10(3) == 10_000;
    assert Power10(6) == 10 * Power10(5) == 1_000_000;
    assert Power10(8) == 10 * Power10(7) == 100_000_000;
    assert Power10(10) == 10 * Power10(9);
  }

  lemma FormatIsFixed(id: nat)
    requires id < ID_LIMIT
    ensures Format(id) == Fixed(id, ID_WIDTH)
  {
    TenDigits();
    PadIsFixed(id, ID_WIDTH);
  }

  // ---------------------------------------------------------------------------------------------
  // Order of formatted ids

  /** Among numbers of the same width, the first different digit decides. */
  lemma {:induction false} FixedOrder(a: nat, b: nat, width: nat) returns (k: nat)
    requires a < b < Power10(width)
    ensures k < width
    ensures Fixed(a, width)[..k] == Fixed(b, width)[..k] && Fixed(a, width)[k] < Fixed(b, width)[k]
  {
    var p, q := Fixed(a / 10, width - 1), Fixed(b / 10, width - 1);
    if a / 10 < b / 10 {
      k := FixedOrder(a / 10, b / 10, width - 1);
      assert Fixed(a, width)[..k] == p[..k] && Fixed(b, width)[..k] == q[..k];
    } else {
      k := width - 1;
      assert Fixed(a, width)[..k] == p && Fixed(b, width)[..k] == q;
    }
  }

  /** Without its last d digits. */
  function Cut(n: nat, d: nat): nat {
    if d == 0 then n else Cut(n / 10, d - 1)
  }

  lemma {:induction false} CutIsQuotient(n: nat, d: nat)
    ensures Cut(n, d) == n / Power10(d)
    decreases d
  {
    if d > 0 {
      CutIsQuotient(n / 10, d - 1);
      Division.DivTwice(n, 10, Power10(d - 1));
    }
  }

  lemma {:induction false} FixedSplit(n: nat, w: nat, d: nat)
    ensures Fixed(n, w + d) == Fixed(Cut(n, d), w) + Fixed(n, d)
    decreases d
  {
    if d > 0 {
      FixedSplit(n / 10, w, d - 1);
    }
  }

  lemma {:induction false} CutBound(n: nat, w: nat, d: nat)
    requires n < Power10(w + d)
    ensures Cut(n, d) < Power10(w)
    decreases d
  {
    if d > 0 {
      CutBound(n / 10, w, d - 1);
    }
  }

  lemma {:induction false} PowersGrow(v: nat, w: nat)
    requires v <= w
    ensures Power10(v) <= Power10(w)
    decreases w
  {
    if v < w {
      PowersGrow(v, w - 1);
    }
  }

  lemma {:induction false} DecimalIsFixed(n: nat)
    ensures Decimal(n) == Fixed(n, |Decimal(n)|) && n < Power10(|Decimal(n)|)
    ensures |Decimal(n)| > 1 ==> Power10(|Decimal(n)| - 1) <= n
  {
    if n < 10 {
      assert Fixed(n, 1) == Fixed(n / 10, 0) + [Digit(n % 10)];
      assert Power10(1) == 10 * Power10(0);
    } else {
      DecimalIsFixed(n / 10);
    }
  }

  /** The text of an id is its digits, ten of them or as many as it takes. */
  lemma FormatDigits(id: nat)
    ensures |Format(id)| >= ID_WIDTH && Format(id) == Fixed(id, |Format(id)|) && id < Power10(|Format(id)|)
    ensures |Format(id)| > ID_WIDTH ==> Power10(|Format(id)| - 1) <= id
  {
    TenDigits();
    DecimalIsFixed(id);
    if id < ID_LIMIT {
      FormatIsFixed(id);
    } else if |Decimal(id)| <= ID_WIDTH {
      PowersGrow(|Decimal(id)|, ID_WIDTH);
    }
  }

  lemma WiderIsLarger(a: nat, b: nat)
    requires a <= b
    ensures |Format(a)| <= |Format(b)|
  {
    FormatDigits(a);
    FormatDigits(b);
    if |Format(a)| > |Format(b)| {
      PowersGrow(|Format(b)|, |Format(a)| - 1);
    }
  }

  lemma SameWidthOrder(a: nat, b: nat, w: nat, y: string)
    requires a < b < Power10(w)
    ensures Before(Fixed(a, w), Fixed(b, w) + y) && Before(Fixed(a, w) + y, Fixed(b, w))
  {
    var k := FixedOrder(a, b, w);
    assert (Fixed(b, w) + y)[..k] == Fixed(b, w)[..k] && (Fixed(a, w) + y)[..k] == Fixed(a, w)[..k];
    assert BeforeAt(Fixed(a, w), Fixed(b, w) + y, k) && BeforeAt(Fixed(a, w) + y, Fixed(b, w), k);
  }

  lemma WiderOrder(a: nat, b: nat, w: nat, d: nat)
    requires a < Power10(w) && b < Power10(w + d) && d > 0
    ensures Before(Fixed(a, w), Fixed(b, w + d)) <==> a <= Cut(b, d)
  {
    FixedSplit(b, w, d);
    CutBound(b, w, d);
    var q, low := Cut(b, d), Fixed(b, d);
    if a < q {
      SameWidthOrder(a, q, w, low);
    } else if a == q {
      assert (Fixed(a, w) + low)[..w] == Fixed(a, w) && Fixed(a, w)[..w] == Fixed(a, w);
      assert BeforeAt(Fixed(a, w), Fixed(b, w + d), w);
    } else {
      SameWidthOrder(q, a, w, low);
      BeforeAsymmetric(Fixed(b, w + d), Fixed(a, w));
    }
  }

  /**
   The order of two formatted ids, exactly: the texts are in the order of the ids if and only if they are equally wide, or
   the smaller id is at most the larger one cut to the same width.
   */
  lemma FormatOrderIff(a: nat, b: nat)
    requires a < b
    ensures |Format(a)| <= |Format(b)|
    ensures
      Before(Format(a), Format(b))
      <==> |Format(a)| == |Format(b)| || a <= b / Power10(|Format(b)| - |Format(a)|)
  {
    WiderIsLarger(a, b);
    FormatDigits(a);
    FormatDigits(b);
    var w, d := |Format(a)|, |Format(b)| - |Format(a)|;
    if d == 0 {
      SameWidthOrder(a, b, w, "");
      assert Fixed(b, w) + "" == Fixed(b, w);
    } else {
      WiderOrder(a, b, w, d);
      CutIsQuotient(b, d);
    }
  }

  // ---------------------------------------------------------------------------------------------
  // Lines of descent and their text

  /** Ids from a root down to a comment. */
  type Line = seq<nat>

  function Tail(l: Line): string {
    if l == [] then "" else "/" + Format(l[0]) + Tail(l[1..])
  }

  function Render(l: Line): string
    requires l != []
  {
    Format(l[0]) + Tail(l[1..])
  }

  lemma {:induction false} TailAppend(l: Line, m: Line)
    ensures Tail(l + m) == Tail(l) + Tail(m)
  {
    if l == [] {
      assert l + m == m;
    } else {
      assert (l + m)[1..] == l[1..] + m;
      TailAppend(l[1..], m);
    }
  }

  lemma RenderSnoc(l: Line, id: nat)
    requires l != []
    ensures Render(l + [id]) == Render(l) + "/" + Format(id)
  {
    assert (l + [id])[1..] == l[1..] + [id];
    TailAppend(l[1..], [id]);
    assert Tail([id]) == "/" + Format(id) + Tail([]);
  }

  /** Preorder on lines: an ancestor comes first, and otherwise the first different id decides. */
  predicate LineBefore(p: Line, q: Line, k: nat) {
    k <= |p| && k < |q| && p[..k] == q[..k] && (k == |p| || p[k] < q[k])
  }

  lemma FormatOrder(a: nat, b: nat)
    requires a < b < ID_LIMIT
    ensures Before(Format(a), Format(b))
  {
    FormatIsFixed(a);
    FormatIsFixed(b);
    FormatOrderIff(a, b);
  }

  lemma {:induction false} FixedCharacters(n: nat, w: nat)
    ensures forall i :: 0 <= i < w ==> '0' <= Fixed(n, w)[i]
  {
    if w > 0 {
      FixedCharacters(n / 10, w - 1);
    }
  }

  /** What may follow an id in a path sorts below every digit, so it does not disturb the order of the ids. */
  lemma FormatThenSlash(a: nat, b: nat, x: string, y: string)
    requires Before(Format(a), Format(b)) && (x == "" || x[0] == '/')
    ensures Before(Format(a) + x, Format(b) + y)
  {
    var k: nat :| BeforeAt(Format(a), Format(b), k);
    FormatDigits(b);
    FixedCharacters(b, |Format(b)|);
    assert (Format(a) + x)[..k] == Format(a)[..k] && (Format(b) + y)[..k] == Format(b)[..k];
    assert BeforeAt(Format(a) + x, Format(b) + y, k);
  }

  lemma RenderSplit(p: Line, k: nat)
    requires 0 < k <= |p|
    ensures Render(p) == Render(p[..k]) + Tail(p[k..])
  {
    assert p[1..] == p[..k][1..] + p[k..];
    TailAppend(p[..k][1..], p[k..]);
  }

  /** Two lines that agree up to k and both go on. */
  predicate PartAt(p: Line, q: Line, k: nat) {
    k < |p| && k < |q| && p[..k] == q[..k]
  }

  lemma TailAt(p: Line, k: nat)
    requires k < |p|
    ensures Tail(p[k..]) == "/" + (Format(p[k]) + Tail(p[k + 1..]))
  {
    assert p[k..][1..] == p[k + 1..];
    AppendAssociative("/", Format(p[k]), Tail(p[k + 1..]));
  }

  /** Where two lines part, the texts of the ids there decide. */
  lemma PartedOrder(p: Line, q: Line, k: nat)
    requires PartAt(p, q, k) && Before(Format(p[k]), Format(q[k]))
    ensures Before(Render(p), Render(q))
  {
    var x, y := Tail(p[k + 1..]), Tail(q[k + 1..]);
    FormatThenSlash(p[k], q[k], x, y);
    if k == 0 {
      assert Render(p) == Format(p[0]) + x && Render(q) == Format(q[0]) + y;
    } else {
      RenderSplit(p, k);
      RenderSplit(q, k);
      TailAt(p, k);
      TailAt(q, k);
      BeforeUnderPrefix("/", Format(p[k]) + x, Format(q[k]) + y);
      BeforeUnderPrefix(Render(p[..k]), Tail(p[k..]), Tail(q[k..]));
    }
  }

  lemma AncestorOrder(p: Line, q: Line)
    requires p != [] && p < q
    ensures Before(Render(p), Render(q))
  {
    RenderSplit(q, |p|);
    assert q[..|p|] == p;
    assert BeforeAt("", Tail(q[|p|..]), 0);
    BeforeUnderPrefix(Render(p), "", Tail(q[|p|..]));
    assert Render(p) + "" == Render(p);
  }

  /** The text key refines preorder: lines in preorder have their texts in byte order, if the ids where they part do. */
  lemma RenderOrder(p: Line, q: Line, k: nat)
    requires p != [] && LineBefore(p, q, k) && (k < |p| ==> Before(Format(p[k]), Format(q[k])))
    ensures Before(Render(p), Render(q))
  {
    if k < |p| {
      PartedOrder(p, q, k);
    } else {
      assert p[..k] == p && q[..k] == p;
      AncestorOrder(p, q);
    }
  }

  /** The width matters: the first eleven-digit id sorts before the last ten-digit one. */
  lemma WideIdsMisordered()
    ensures Before(Format(ID_LIMIT), Format(ID_LIMIT - 1))
  {
    TenDigits();
    FormatDigits(ID_LIMIT);
    FormatIsFixed(ID_LIMIT - 1);
    assert Power10(11) == 10 * Power10(10);
    assert |Format(ID_LIMIT)| == 11;
    FixedSplit(ID_LIMIT, 10, 1);
    SameWidthOrder(Cut(ID_LIMIT, 1), ID_LIMIT - 1, 10, Fixed(ID_LIMIT, 1));
  }
}
