/**
  The span preview that `approxEqual` writes after an element mismatch
  (the `print_span` lambda of tests/TestHelpers.h).

  A span with fewer than `Threshold` elements is listed in full. A span of
  `Threshold` or more elements is listed as its first `Half` elements, an
  ellipsis marker, and its last `Half` elements; at exactly 16 elements the
  marker is printed although nothing is left out. An empty span is shown as
  the empty-set marker `{ }`. Number formatting is not modelled: a listing is a sequence of tokens.
 */
module Preview {

  /** Spans with at least this many elements are elided. */
  const Threshold: nat := 16

  /** Number of leading (and of trailing) elements shown for an elided span. */
  const Half: nat := 8

  /** One printed item of a listing: an element, or the `...` marker. */
  datatype Token = Elem(value: real) | Ellipsis

  /** `{ }` for an empty span, otherwise `{ t0, t1, ..., tn }`. */
  datatype Preview = EmptyMarker | Listing(body: seq<Token>)

  /** The tokens printing each element of `s` in order. */
  function Elems(s: seq<real>): seq<Token>
  {
    seq(|s|, i requires 0 <= i < |s| => Elem(s[i]))
  }

  /**
    The preview of `span`. As in the source, the loops stop one short of the
    end and the last element is printed separately, after the loops.
   */
  function PrintSpan(span: seq<real>): (p: Preview)
    ensures p.EmptyMarker? <==> |span| == 0
    ensures 0 < |span| < Threshold ==>
              && |p.body| == |span|
              && forall i :: 0 <= i < |span| ==> p.body[i] == Elem(span[i])
    ensures Threshold <= |span| ==>
              && |p.body| == 2 * Half + 1
              && (forall i :: 0 <= i < Half ==> p.body[i] == Elem(span[i]))
              && p.body[Half] == Ellipsis
              && (forall i :: Half < i < 2 * Half + 1 ==>
                    p.body[i] == Elem(span[|span| - 2 * Half - 1 + i]))
  {
    if |span| == 0 then EmptyMarker
    else
      var last := [Elem(span[|span| - 1])];
      if |span| < Threshold then
        Listing(Elems(span[..|span| - 1]) + last)
      else
        Listing(Elems(span[..Half]) + [Ellipsis] + Elems(span[|span| - Half..|span| - 1]) + last)
  }

  /**
    The same preview built the way the source builds it: one loop for a short
    span, and for a long span a loop over the head, the marker, and a loop
    from `size - 8` up to `size - 1`, then the last element.
   */
  method RenderSpan(span: seq<real>) returns (p: Preview)
    ensures p == PrintSpan(span)
  {
    if |span| == 0 {
      return EmptyMarker;
    }
    var body: seq<Token> := [];
    if |span| < Threshold {
      var i := 0;
      while i < |span| - 1
        invariant 0 <= i <= |span| - 1
        invariant body == Elems(span[..i])
      {
        body := body + [Elem(span[i])];
        i := i + 1;
      }
    } else {
      var i := 0;
      while i < Half
        invariant 0 <= i <= Half
        invariant body == Elems(span[..i])
      {
        body := body + [Elem(span[i])];
        i := i + 1;
      }
      body := body + [Ellipsis];
      var j := |span| - Half;
      while j < |span| - 1
        invariant |span| - Half <= j <= |span| - 1
        invariant body == Elems(span[..Half]) + [Ellipsis] + Elems(span[|span| - Half..j])
      {
        body := body + [Elem(span[j])];
        j := j + 1;
      }
    }
    p := Listing(body + [Elem(span[|span| - 1])]);
  }

  /** The element values a token sequence shows, in order (markers dropped). */
  function Values(ts: seq<Token>): seq<real>
  {
    if |ts| == 0 then []
    else (if ts[0].Elem? then [ts[0].value] else []) + Values(ts[1..])
  }

  /** The element values a preview shows. */
  function Shown(p: Preview): seq<real>
  {
    if p.EmptyMarker? then [] else Values(p.body)
  }

  lemma {:induction false} ValuesAppend(a: seq<Token>, b: seq<Token>)
    ensures Values(a + b) == Values(a) + Values(b)
  {
    if |a| == 0 {
      assert a + b == b;
    } else {
      var h := if a[0].Elem? then [a[0].value] else [];
      assert (a + b)[0] == a[0];
      assert (a + b)[1..] == a[1..] + b;
      assert Values(a + b) == h + Values(a[1..] + b);
      ValuesAppend(a[1..], b);
      assert Values(a) == h + Values(a[1..]);
    }
  }

  lemma {:induction false} ValuesOfElems(s: seq<real>)
    ensures Values(Elems(s)) == s
  {
    if |s| != 0 {
      assert Elems(s)[1..] == Elems(s[1..]);
      ValuesOfElems(s[1..]);
    }
  }

  /**
    A span of at most 16 elements can be read back from its preview: the
    values shown are exactly the span. (At 16 elements the listing still
    carries the ellipsis marker although nothing is left out.)
   */
  lemma PreviewRoundTrip(span: seq<real>)
    requires |span| <= Threshold
    ensures Shown(PrintSpan(span)) == span
  {
    if 0 < |span| {
      var n := |span|;
      if n < Threshold {
        ValuesAppend(Elems(span[..n - 1]), [Elem(span[n - 1])]);
        ValuesOfElems(span[..n - 1]);
        assert Values([Elem(span[n - 1])]) == [span[n - 1]];
        assert span[..n - 1] + [span[n - 1]] == span;
      } else {
        LongPreviewShown(span);
        assert span[..Half] + span[n - Half..] == span;
      }
    }
  }

  /**
    A span of 16 or more elements shows exactly its first 8 and its last 8
    values, in order.
   */
  lemma LongPreviewShown(span: seq<real>)
    requires Threshold <= |span|
    ensures Shown(PrintSpan(span)) == span[..Half] + span[|span| - Half..]
  {
    var n := |span|;
    var head := Elems(span[..Half]) + [Ellipsis];
    var mid := Elems(span[n - Half..n - 1]);
    var last := [Elem(span[n - 1])];
    assert PrintSpan(span).body == head + mid + last;
    ValuesAppend(head + mid, last);
    ValuesAppend(head, mid);
    ValuesAppend(Elems(span[..Half]), [Ellipsis]);
    ValuesOfElems(span[..Half]);
    ValuesOfElems(span[n - Half..n - 1]);
    assert Values([Ellipsis]) == [];
    assert Values(last) == [span[n - 1]];
    assert span[n - Half..n - 1] + [span[n - 1]] == span[n - Half..];
  }

  /** The ellipsis marker appears in a preview iff the span has 16 or more elements. */
  lemma EllipsisIffLong(span: seq<real>)
    ensures PrintSpan(span).Listing? && Ellipsis in PrintSpan(span).body
            <==> Threshold <= |span|
  {
  }

  /**
    Two long spans get the same preview iff they agree on their first 8 and
    last 8 elements: whatever lies between is not shown.
   */
  lemma LongPreviewDeterminedByEnds(s: seq<real>, t: seq<real>)
    requires Threshold <= |s| && Threshold <= |t|
    ensures PrintSpan(s) == PrintSpan(t)
            <==> s[..Half] == t[..Half] && s[|s| - Half..] == t[|t| - Half..]
  {
    var ps, pt := PrintSpan(s), PrintSpan(t);
    if s[..Half] == t[..Half] && s[|s| - Half..] == t[|t| - Half..] {
      assert forall i :: 0 <= i < Half ==> s[i] == s[..Half][i];
      assert forall i :: 0 <= i < Half ==> t[i] == t[..Half][i];
      forall i | |s| - Half <= i < |s|
        ensures s[i] == t[|t| - |s| + i]
      {
        assert s[i] == s[|s| - Half..][i - (|s| - Half)];
        assert t[|t| - |s| + i] == t[|t| - Half..][i - (|s| - Half)];
      }
      assert ps.body == pt.body;
    }
    if ps == pt {
      LongPreviewShown(s);
      LongPreviewShown(t);
      assert s[..Half] == (s[..Half] + s[|s| - Half..])[..Half];
      assert t[..Half] == (t[..Half] + t[|t| - Half..])[..Half];
      assert s[|s| - Half..] == (s[..Half] + s[|s| - Half..])[Half..];
      assert t[|t| - Half..] == (t[..Half] + t[|t| - Half..])[Half..];
    }
  }
}
