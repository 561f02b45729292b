/** Fixed-width date-time patterns in the style of `strftime`: a pattern is a list of
    items, each either a literal character or a zero-padded decimal field of fixed
    width (`%Y` is four digits, `%m`, `%d`, `%H`, `%M` and `%S` two). `Match` reads a
    whole string against a pattern and `Render` writes field values back; the two are
    proved inverse on every input. */
module Pattern {
  import opened Wrappers

  datatype Field = Year | Month | Day | Hour | Minute | Second

  datatype Item = Numeric(field: Field, width: nat) | Literal(c: char)

  /** `%Y-%m-%d` */
  const DatePattern: seq<Item> :=
    [Numeric(Year, 4), Literal('-'), Numeric(Month, 2), Literal('-'), Numeric(Day, 2)]

  /** ` %H:%M:%S`, the part of the date-time pattern after the date. */
  const TimeSuffix: seq<Item> :=
    [Literal(' '), Numeric(Hour, 2), Literal(':'), Numeric(Minute, 2), Literal(':'), Numeric(Second, 2)]

  /** `%Y-%m-%d %H:%M:%S` */
  const DateTimePattern: seq<Item> := DatePattern + TimeSuffix

  // ---------------------------------------------------------------------------
  // Decimal digits

  predicate IsDigit(c: char) {
    '0' <= c <= '9'
  }

  predicate AllDigits(t: string) {
    forall i :: 0 <= i < |t| ==> IsDigit(t[i])
  }

  function DigitValue(c: char): (v: nat)
    requires IsDigit(c)
    ensures v < 10
  {
    (c as int) - ('0' as int)
  }

  function DigitChar(v: nat): (c: char)
    requires v < 10
    ensures IsDigit(c) && DigitValue(c) == v
  {
    (('0' as int) + v) as char
  }

  function Pow10(w: nat): (p: nat)
    ensures p >= 1
  {
    if w == 0 then 1 else 10 * Pow10(w - 1)
  }

  /** The number a string of decimal digits denotes, most significant digit first. */
  function DecimalValue(t: string): nat
    requires AllDigits(t)
  {
    if t == [] then 0 else 10 * DecimalValue(t[..|t| - 1]) + DigitValue(t[|t| - 1])
  }

  /** The `w` least significant decimal digits of `n`, zero-padded on the left. */
  function PadDecimal(n: nat, w: nat): string
  {
    if w == 0 then [] else PadDecimal(n / 10, w - 1) + [DigitChar(n % 10)]
  }

  lemma {:induction false} PadDecimalDigits(n: nat, w: nat)
    ensures |PadDecimal(n, w)| == w && AllDigits(PadDecimal(n, w))
  {
    if w > 0 {
      PadDecimalDigits(n / 10, w - 1);
    }
  }

  /** Padding a number that fits in `w` digits and reading it back gives the number. */
  lemma {:induction false} DecimalOfPad(n: nat, w: nat)
    requires n < Pow10(w)
    ensures |PadDecimal(n, w)| == w && AllDigits(PadDecimal(n, w))
    ensures DecimalValue(PadDecimal(n, w)) == n
  {
    PadDecimalDigits(n, w);
    if w > 0 {
      DecimalOfPad(n / 10, w - 1);
      var t := PadDecimal(n, w);
      assert t[..w - 1] == PadDecimal(n / 10, w - 1);
    }
  }

  /** Reading a digit string and padding the value to the same width gives the string
      back, so every digit string is the padding of exactly one number. */
  lemma {:induction false} PadOfDecimal(t: string)
    requires AllDigits(t)
    ensures DecimalValue(t) < Pow10(|t|)
    ensures PadDecimal(DecimalValue(t), |t|) == t
  {
    if t != [] {
      var init := t[..|t| - 1];
      PadOfDecimal(init);
      var a, d := DecimalValue(init), DigitValue(t[|t| - 1]);
      assert (10 * a + d) / 10 == a && (10 * a + d) % 10 == d;
      assert t == init + [t[|t| - 1]];
    }
  }

  // ---------------------------------------------------------------------------
  // Patterns

  /** The number of fields a pattern captures. */
  function Captures(items: seq<Item>): nat
  {
    if items == [] then 0
    else (if items[0].Numeric? then 1 else 0) + Captures(items[1..])
  }

  /** The length of every string a pattern matches. */
  function Length(items: seq<Item>): nat
  {
    if items == [] then 0
    else (if items[0].Numeric? then items[0].width else 1) + Length(items[1..])
  }

  /** The widths of the numeric fields, in pattern order. */
  function Widths(items: seq<Item>): (ws: seq<nat>)
    ensures |ws| == Captures(items)
  {
    if items == [] then []
    else match items[0]
      case Literal(_) => Widths(items[1..])
      case Numeric(_, w) => [w] + Widths(items[1..])
  }

  /** Each captured value fits in the width of its field. */
  predicate Fits(items: seq<Item>, vals: seq<nat>)
  {
    var ws := Widths(items);
    |vals| == |ws| && forall k :: 0 <= k < |vals| ==> vals[k] < Pow10(ws[k])
  }

  /** Reads the whole of `s` against `items`: each literal must appear as it is, each
      numeric field must be exactly `width` decimal digits, and nothing may be left
      over. On success gives the field values in pattern order. */
  function Match(items: seq<Item>, s: string): (r: Option<seq<nat>>)
    ensures r.Some? ==> |r.value| == Captures(items)
  {
    if items == [] then
      if s == [] then Some([]) else None
    else match items[0]
      case Literal(c) =>
        if |s| > 0 && s[0] == c then Match(items[1..], s[1..]) else None
      case Numeric(_, w) =>
        if w <= |s| && AllDigits(s[..w]) then
          match Match(items[1..], s[w..])
          case Some(rest) => Some([DecimalValue(s[..w])] + rest)
          case None => None
        else None
  }

  /** Writes the field values into the pattern. */
  function Render(items: seq<Item>, vals: seq<nat>): (s: string)
    requires |vals| == Captures(items)
  {
    if items == [] then []
    else match items[0]
      case Literal(c) => [c] + Render(items[1..], vals)
      case Numeric(_, w) => PadDecimal(vals[0], w) + Render(items[1..], vals[1..])
  }

  lemma {:induction false} RenderLength(items: seq<Item>, vals: seq<nat>)
    requires |vals| == Captures(items)
    ensures |Render(items, vals)| == Length(items)
  {
    if items != [] {
      match items[0]
      case Literal(_) => RenderLength(items[1..], vals);
      case Numeric(_, w) =>
        PadDecimalDigits(vals[0], w);
        RenderLength(items[1..], vals[1..]);
    }
  }

  /** Rendering a pattern made of two parts renders each part with its own values. */
  lemma {:induction false} RenderAppend(a: seq<Item>, b: seq<Item>, va: seq<nat>, vb: seq<nat>)
    requires |va| == Captures(a) && |vb| == Captures(b)
    ensures Captures(a + b) == |va + vb|
    ensures Render(a + b, va + vb) == Render(a, va) + Render(b, vb)
  {
    ShapeAppend(a, b);
    var ab, v := a + b, va + vb;
    if a == [] {
      assert ab == b && v == vb;
    } else {
      var ra, rb := Render(a, va), Render(b, vb);
      var a', ab' := a[1..], ab[1..];
      assert ab[0] == a[0] && ab' == a' + b;
      if a[0].Literal? {
        var c := a[0].c;
        RenderAppend(a', b, va, vb);
        assert ra == [c] + Render(a', va);
        assert Render(ab, v) == [c] + Render(ab', v);
        assert Render(ab', v) == Render(a', va) + rb;
      } else {
        var w := a[0].width;
        var va' := va[1..];
        assert v[0] == va[0] && v[1..] == va' + vb;
        RenderAppend(a', b, va', vb);
        assert ra == PadDecimal(va[0], w) + Render(a', va');
        assert Render(ab, v) == PadDecimal(va[0], w) + Render(ab', v[1..]);
        assert Render(ab', v[1..]) == Render(a', va') + rb;
      }
    }
  }

  /** The shape of a pattern made of two parts is the two shapes one after the other. */
  lemma {:induction false} ShapeAppend(a: seq<Item>, b: seq<Item>)
    ensures Captures(a + b) == Captures(a) + Captures(b)
    ensures Length(a + b) == Length(a) + Length(b)
    ensures Widths(a + b) == Widths(a) + Widths(b)
    ensures Fields(a + b) == Fields(a) + Fields(b)
  {
    if a == [] {
      assert a + b == b;
    } else {
      assert (a + b)[0] == a[0] && (a + b)[1..] == a[1..] + b;
      ShapeAppend(a[1..], b);
      if a[0].Numeric? {
        assert Widths(a + b) == [a[0].width] + (Widths(a[1..]) + Widths(b));
        assert Fields(a + b) == [a[0].field] + (Fields(a[1..]) + Fields(b));
      }
    }
  }

  /** What `Fits` says of a pattern's first item and of the rest of the pattern. */
  lemma FitsStep(items: seq<Item>, vals: seq<nat>)
    requires items != [] && |vals| == Captures(items)
    ensures items[0].Literal? ==> (Fits(items, vals) <==> Fits(items[1..], vals))
    ensures items[0].Numeric? ==>
              (Fits(items, vals) <==> vals[0] < Pow10(items[0].width) && Fits(items[1..], vals[1..]))
  {
    var ws, ws' := Widths(items), Widths(items[1..]);
    if items[0].Numeric? {
      assert ws == [items[0].width] + ws';
      assert forall k :: 0 <= k < |ws'| ==> ws'[k] == ws[k + 1];
      if vals[0] < Pow10(items[0].width) && Fits(items[1..], vals[1..]) {
        forall k | 0 <= k < |vals| ensures vals[k] < Pow10(ws[k]) {
          if k > 0 {
            assert vals[k] == vals[1..][k - 1];
          }
        }
      }
    }
  }

  /** A string the pattern matches has the pattern's length. */
  lemma MatchLength(items: seq<Item>, s: string)
    requires Match(items, s).Some?
    ensures |s| == Length(items)
  {
    RenderMatch(items, s);
    RenderLength(items, Match(items, s).value);
  }

  /** Rendered values that fit are matched back to the same values. */
  lemma {:induction false} MatchRender(items: seq<Item>, vals: seq<nat>)
    requires |vals| == Captures(items) && Fits(items, vals)
    ensures Match(items, Render(items, vals)) == Some(vals)
  {
    if items != [] {
      var s := Render(items, vals);
      FitsStep(items, vals);
      if items[0].Literal? {
        var rest := Render(items[1..], vals);
        assert s == [items[0].c] + rest;
        assert s[1..] == rest;
        MatchRender(items[1..], vals);
      } else {
        var w := items[0].width;
        var digits, rest := PadDecimal(vals[0], w), Render(items[1..], vals[1..]);
        assert s == digits + rest;
        DecimalOfPad(vals[0], w);
        assert s[..w] == digits && s[w..] == rest;
        MatchRender(items[1..], vals[1..]);
        assert vals == [vals[0]] + vals[1..];
      }
    }
  }

  /** A matched string is exactly the rendering of the values read from it, and those
      values fit their fields. */
  lemma {:induction false} RenderMatch(items: seq<Item>, s: string)
    requires Match(items, s).Some?
    ensures Fits(items, Match(items, s).value)
    ensures Render(items, Match(items, s).value) == s
  {
    if items != [] {
      var vals := Match(items, s).value;
      FitsStep(items, vals);
      if items[0].Literal? {
        var c := items[0].c;
        assert |s| > 0 && s[0] == c && vals == Match(items[1..], s[1..]).value;
        RenderMatch(items[1..], s[1..]);
        assert Render(items, vals) == [c] + Render(items[1..], vals);
        assert s == [c] + s[1..];
      } else {
        var w := items[0].width;
        var digits := s[..w];
        var rest := Match(items[1..], s[w..]).value;
        assert vals == [DecimalValue(digits)] + rest;
        assert vals[0] == DecimalValue(digits) && vals[1..] == rest;
        PadOfDecimal(digits);
        RenderMatch(items[1..], s[w..]);
        assert Render(items, vals) == PadDecimal(vals[0], w) + Render(items[1..], rest);
        assert s == digits + s[w..];
      }
    }
  }

  /** `Match` succeeds on `s` with `vals` exactly when `s` is the rendering of values that
      fit: the pattern's matched strings and its renderings are the same strings. */
  lemma MatchIff(items: seq<Item>, s: string, vals: seq<nat>)
    requires |vals| == Captures(items)
    ensures Match(items, s) == Some(vals) <==> Fits(items, vals) && s == Render(items, vals)
  {
    if Match(items, s) == Some(vals) {
      RenderMatch(items, s);
    }
    if Fits(items, vals) && s == Render(items, vals) {
      MatchRender(items, vals);
    }
  }

  // ---------------------------------------------------------------------------
  // Captured fields by name

  /** The fields a match has filled in, by name; a field the pattern does not mention
      stays unset. */
  datatype Parsed = Parsed(year: Option<int>, month: Option<nat>, day: Option<nat>,
                           hour: Option<nat>, minute: Option<nat>, second: Option<nat>)

  /** The fields a pattern captures, in pattern order. */
  function Fields(items: seq<Item>): (fs: seq<Field>)
    ensures |fs| == Captures(items)
  {
    if items == [] then []
    else match items[0]
      case Literal(_) => Fields(items[1..])
      case Numeric(f, _) => [f] + Fields(items[1..])
  }

  /** The position of the first capture of field `f`. */
  function IndexOf(fs: seq<Field>, f: Field): (r: Option<nat>)
    ensures r.Some? ==> r.value < |fs| && fs[r.value] == f
    ensures r.None? ==> f !in fs
  {
    if fs == [] then None
    else if fs[0] == f then Some(0)
    else match IndexOf(fs[1..], f)
      case Some(k) => Some(k + 1)
      case None => None
  }

  /** The value captured for field `f`, if the pattern has that field. */
  function Get(items: seq<Item>, vals: seq<nat>, f: Field): (r: Option<nat>)
    requires |vals| == Captures(items)
    ensures r.Some? <==> f in Fields(items)
  {
    match IndexOf(Fields(items), f)
    case Some(k) => Some(vals[k])
    case None => None
  }

  /** Files the values `Match` read under the names of the pattern's fields. */
  function Collect(items: seq<Item>, vals: seq<nat>): Parsed
    requires |vals| == Captures(items)
  {
    Parsed(Get(items, vals, Year), Get(items, vals, Month), Get(items, vals, Day),
           Get(items, vals, Hour), Get(items, vals, Minute), Get(items, vals, Second))
  }
}
