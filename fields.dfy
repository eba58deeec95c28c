/**
 * Fixed-layout numeric text: a row of fields, each a separator followed by a
 * zero-padded number of a given width, as toISOString lays out a timestamp.
 * Rendering and reading back are inverse, and rendering turns the
 * lexicographic order of the numbers into text order.
 */
module Fields {
  import opened Wrappers
  import opened Text
  import opened Decimal

  datatype Slot = Slot(sep: string, width: nat)

  /** Every value fits its slot's width. */
  predicate Fits(layout: seq<Slot>, vs: seq<nat>) {
    |layout| == |vs|
    && forall i :: 0 <= i < |vs| ==> 1 <= layout[i].width && vs[i] < Pow10(layout[i].width)
  }

  predicate WellFormed(layout: seq<Slot>) {
    forall i :: 0 <= i < |layout| ==> 1 <= layout[i].width
  }

  lemma FitsTail(layout: seq<Slot>, vs: seq<nat>)
    requires Fits(layout, vs) && vs != []
    ensures Fits(layout[1..], vs[1..])
    ensures 1 <= layout[0].width && vs[0] < Pow10(layout[0].width)
    ensures |Fixed(vs[0], layout[0].width)| == layout[0].width
  {
    assert forall i :: 0 <= i < |vs| - 1 ==> layout[1..][i] == layout[i + 1] && vs[1..][i] == vs[i + 1];
  }

  lemma FitsDrop(layout: seq<Slot>, vs: seq<nat>, k: nat)
    requires Fits(layout, vs) && k <= |vs|
    ensures Fits(layout[k..], vs[k..])
  {
    assert forall i :: 0 <= i < |vs| - k ==> layout[k..][i] == layout[i + k] && vs[k..][i] == vs[i + k];
  }

  lemma FitsCons(slot: Slot, layout: seq<Slot>, v: nat, vs: seq<nat>)
    requires Fits(layout, vs) && 1 <= slot.width && v < Pow10(slot.width)
    ensures Fits([slot] + layout, [v] + vs)
  {
    assert forall i :: 1 <= i <= |vs| ==> ([slot] + layout)[i] == layout[i - 1] && ([v] + vs)[i] == vs[i - 1];
  }

  function Render(layout: seq<Slot>, vs: seq<nat>): string
    requires |layout| == |vs| && WellFormed(layout)
    decreases |vs|
  {
    if vs == [] then ""
    else layout[0].sep + Fixed(vs[0], layout[0].width) + Render(layout[1..], vs[1..])
  }

  /** One step of rendering: the head field, then the rest of the row. */
  lemma RenderCons(layout: seq<Slot>, vs: seq<nat>)
    requires Fits(layout, vs) && vs != []
    ensures Fits(layout[1..], vs[1..]) && WellFormed(layout)
    ensures Render(layout, vs) == layout[0].sep + Fixed(vs[0], layout[0].width) + Render(layout[1..], vs[1..])
  {
    FitsTail(layout, vs);
  }

  /** The text length a layout fixes. */
  function Width(layout: seq<Slot>): nat
    decreases |layout|
  {
    if layout == [] then 0 else |layout[0].sep| + layout[0].width + Width(layout[1..])
  }

  lemma {:induction false} RenderLength(layout: seq<Slot>, vs: seq<nat>)
    requires Fits(layout, vs)
    ensures WellFormed(layout) && |Render(layout, vs)| == Width(layout)
    decreases |vs|
  {
    if vs != [] {
      FitsTail(layout, vs);
      RenderLength(layout[1..], vs[1..]);
    }
  }

  /** Lexicographic order of equal-length number rows. */
  predicate LexLess(a: seq<int>, b: seq<int>)
    decreases |a|
  {
    |a| > 0 && |b| > 0 && (a[0] < b[0] || (a[0] == b[0] && LexLess(a[1..], b[1..])))
  }

  /** Comparing rows with a common-length head compares the heads first. */
  lemma {:induction false} LexLessConcat(p1: seq<int>, a: seq<int>, p2: seq<int>, b: seq<int>)
    requires |p1| == |p2| && |a| == |b| > 0
    ensures LexLess(p1 + a, p2 + b) <==> LexLess(p1, p2) || (p1 == p2 && LexLess(a, b))
    decreases |p1|
  {
    if p1 == [] {
      assert p1 + a == a && p2 + b == b;
    } else {
      assert (p1 + a)[1..] == p1[1..] + a && (p2 + b)[1..] == p2[1..] + b;
      LexLessConcat(p1[1..], a, p2[1..], b);
      if p1[0] == p2[0] && p1[1..] == p2[1..] {
        assert p1 == [p1[0]] + p1[1..] && p2 == [p2[0]] + p2[1..];
      }
    }
  }

  /** Rendering is monotone: a lexicographically smaller row renders to smaller text. */
  lemma {:induction false} RenderOrder(layout: seq<Slot>, a: seq<nat>, b: seq<nat>)
    requires Fits(layout, a) && Fits(layout, b) && LexLess(a, b)
    ensures TextLess(Render(layout, a), Render(layout, b))
    decreases |a|
  {
    FitsTail(layout, a);
    FitsTail(layout, b);
    var sep, w := layout[0].sep, layout[0].width;
    var x, y := Fixed(a[0], w), Fixed(b[0], w);
    var ra, rb := Render(layout[1..], a[1..]), Render(layout[1..], b[1..]);
    assert Render(layout, a) == sep + x + ra;
    assert Render(layout, b) == sep + y + rb;
    DigitsOrder(x, y);
    TextLessConcat(sep, x, sep, y);
    TextLessIrreflexive(sep);
    TextLessConcat(sep + x, ra, sep + y, rb);
    if a[0] == b[0] {
      RenderOrder(layout[1..], a[1..], b[1..]);
    }
  }

  /** Reads a row of the given layout back; None unless the text has exactly that layout. */
  function Unrender(layout: seq<Slot>, s: string): Option<seq<nat>>
    decreases |layout|
  {
    if layout == [] then (if s == "" then Some([]) else None)
    else
      var n, w := |layout[0].sep|, layout[0].width;
      if |s| < n + w || s[..n] != layout[0].sep || !AllDigits(s[n..n + w]) then None
      else match Unrender(layout[1..], s[n + w..])
        case None => None
        case Some(rest) => Some([DigitsValue(s[n..n + w])] + rest)
  }

  /** Reading a row whose head field is the digit string f. */
  lemma UnrenderCons(layout: seq<Slot>, f: string, rest: string, r: seq<nat>)
    requires layout != [] && |f| == layout[0].width && AllDigits(f)
    requires Unrender(layout[1..], rest) == Some(r)
    ensures Unrender(layout, layout[0].sep + f + rest) == Some([DigitsValue(f)] + r)
  {
    var sep := layout[0].sep;
    var s := sep + f + rest;
    assert s[..|sep|] == sep;
    assert s[|sep|..|sep| + |f|] == f;
    assert s[|sep| + |f|..] == rest;
  }

  /** Reading back a rendered row gives the row. */
  lemma {:induction false} UnrenderRender(layout: seq<Slot>, vs: seq<nat>)
    requires Fits(layout, vs)
    ensures WellFormed(layout) && Unrender(layout, Render(layout, vs)) == Some(vs)
    decreases |vs|
  {
    if vs != [] {
      RenderCons(layout, vs);
      FitsTail(layout, vs);
      UnrenderRender(layout[1..], vs[1..]);
      UnrenderStep(layout, vs, Fixed(vs[0], layout[0].width), Render(layout[1..], vs[1..]));
    }
  }

  lemma UnrenderStep(layout: seq<Slot>, vs: seq<nat>, f: string, rest: string)
    requires layout != [] && vs != [] && |f| == layout[0].width && AllDigits(f) && DigitsValue(f) == vs[0]
    requires Unrender(layout[1..], rest) == Some(vs[1..])
    ensures Unrender(layout, layout[0].sep + f + rest) == Some(vs)
  {
    UnrenderCons(layout, f, rest, vs[1..]);
    assert vs == [vs[0]] + vs[1..];
  }
}
