/** If you give a seed a fertilizer: an almanac of mappings, each a list of
    entries `dst src size` that shift the half-open source range
    `[src, src + size)` onto `[dst, dst + size)`.  Seeds are mapped one
    value at a time, and seed ranges one interval at a time by splitting
    each interval around each entry. */
module Day5 {
  import opened Common

  /** One almanac line: the source range `[src, src + size)` moves by
      `dst - src`. */
  datatype Entry = Entry(dst: int, src: int, size: int)

  type Mapping = seq<Entry>

  /** A half-open interval of values, empty unless `start < end`. */
  datatype Span = Span(start: int, end: int)

  predicate InEntry(e: Entry, x: int)
  {
    e.src <= x < e.src + e.size
  }

  function Shift(e: Entry, x: int): int
  {
    x + e.dst - e.src
  }

  /** Whether some entry of the mapping takes `x`. */
  predicate Matches(m: Mapping, x: int)
  {
    exists k :: 0 <= k < |m| && InEntry(m[k], x)
  }

  /** Entry `k` is the first whose source range holds `x`. */
  predicate FirstMatch(m: Mapping, x: int, k: int)
  {
    0 <= k < |m| && InEntry(m[k], x) && forall j :: 0 <= j < k ==> !InEntry(m[j], x)
  }

  /** A value goes through the first entry whose source range holds it, and
      stays itself when no entry does. */
  function ApplyValue(m: Mapping, x: int): (r: int)
    ensures forall k :: FirstMatch(m, x, k) ==> r == Shift(m[k], x)
    ensures !Matches(m, x) ==> r == x
  {
    if |m| == 0 then x
    else if InEntry(m[0], x) then Shift(m[0], x)
    else
      var r := ApplyValue(m[1..], x);
      assert forall k :: FirstMatch(m, x, k) ==> r == Shift(m[k], x) by {
        forall k | FirstMatch(m, x, k)
          ensures r == Shift(m[k], x)
        {
          assert m[1..][k - 1] == m[k];
          assert FirstMatch(m[1..], x, k - 1);
        }
      }
      assert !Matches(m, x) ==> !Matches(m[1..], x) by {
        if Matches(m[1..], x) {
          var k :| 0 <= k < |m[1..]| && InEntry(m[1..][k], x);
          assert m[k + 1] == m[1..][k];
        }
      }
      r
  }

  /** The length of a span, zero when it is empty. */
  function Len(s: Span): nat
  {
    if s.start < s.end then s.end - s.start else 0
  }

  function TotalLen(spans: seq<Span>): nat
  {
    if |spans| == 0 then 0 else TotalLen(spans[..|spans| - 1]) + Len(spans[|spans| - 1])
  }

  predicate Covers(spans: seq<Span>, x: int)
  {
    exists k :: 0 <= k < |spans| && spans[k].start <= x < spans[k].end
  }

  predicate AllNonEmpty(spans: seq<Span>)
  {
    forall k :: 0 <= k < |spans| ==> spans[k].start < spans[k].end
  }

  /** A span as a list of at most one span: nothing when it is empty. */
  function Keep(s: Span): (r: seq<Span>)
    ensures AllNonEmpty(r)
    ensures |r| <= 1
  {
    if s.start < s.end then [s] else []
  }

  /** The part of `s` below the entry's source range, the part inside it and
      the part above it. */
  function Below(e: Entry, s: Span): Span
  {
    Span(s.start, Min(s.end, e.src))
  }

  function Middle(e: Entry, s: Span): Span
  {
    Span(Max(s.start, e.src), Min(s.end, e.src + e.size))
  }

  function Above(e: Entry, s: Span): Span
  {
    Span(Max(s.start, e.src + e.size), s.end)
  }

  /** What an entry passes on: the shifted middle part, if there is one. */
  function MappedPart(e: Entry, s: Span): seq<Span>
  {
    var mid := Middle(e, s);
    Keep(Span(Shift(e, mid.start), Shift(e, mid.end)))
  }

  /** What an entry leaves for the next one: the parts below and above. */
  function UnmappedPart(e: Entry, s: Span): seq<Span>
  {
    Keep(Below(e, s)) + Keep(Above(e, s))
  }

  /** One entry's pass over the spans: they are popped from the back, so the
      last span's parts come first. */
  function SplitEntry(e: Entry, spans: seq<Span>): (r: (seq<Span>, seq<Span>))
    ensures AllNonEmpty(r.0) && AllNonEmpty(r.1)
  {
    if |spans| == 0 then ([], [])
    else
      var s := spans[|spans| - 1];
      var rest := SplitEntry(e, spans[..|spans| - 1]);
      (MappedPart(e, s) + rest.0, UnmappedPart(e, s) + rest.1)
  }

  /** All entries in turn: the spans each entry maps, in entry order, and
      the spans no entry took. */
  function Pass(m: Mapping, spans: seq<Span>): (seq<Span>, seq<Span>)
  {
    if |m| == 0 then ([], spans)
    else
      var first := SplitEntry(m[0], spans);
      var later := Pass(m[1..], first.1);
      (first.0 + later.0, later.1)
  }

  /** The spans a mapping turns `spans` into: the mapped ones, then what
      passed every entry untouched. */
  function ApplyRanges(m: Mapping, spans: seq<Span>): seq<Span>
  {
    var p := Pass(m, spans);
    p.0 + p.1
  }

  lemma CoversAppend(a: seq<Span>, b: seq<Span>, x: int)
    ensures Covers(a + b, x) <==> Covers(a, x) || Covers(b, x)
  {
    if Covers(a + b, x) {
      var k :| 0 <= k < |a + b| && (a + b)[k].start <= x < (a + b)[k].end;
      if k >= |a| {
        assert b[k - |a|] == (a + b)[k];
      }
    }
    if Covers(a, x) {
      var k :| 0 <= k < |a| && a[k].start <= x < a[k].end;
      assert (a + b)[k] == a[k];
    }
    if Covers(b, x) {
      var k :| 0 <= k < |b| && b[k].start <= x < b[k].end;
      assert (a + b)[|a| + k] == b[k];
    }
  }

  lemma AllNonEmptyAppend(a: seq<Span>, b: seq<Span>)
    requires AllNonEmpty(a) && AllNonEmpty(b)
    ensures AllNonEmpty(a + b)
  {
  }

  lemma KeepCovers(s: Span, x: int)
    ensures Covers(Keep(s), x) <==> s.start <= x < s.end
  {
    if s.start <= x < s.end {
      assert Keep(s)[0] == s;
    }
  }

  /** The parts below and above the entry's source range hold exactly the
      span's points the entry does not take, however the entry lies. */
  lemma UnmappedPoints(e: Entry, s: Span, x: int)
    ensures Covers(UnmappedPart(e, s), x) <==> s.start <= x < s.end && !InEntry(e, x)
  {
    CoversAppend(Keep(Below(e, s)), Keep(Above(e, s)), x);
    KeepCovers(Below(e, s), x);
    KeepCovers(Above(e, s), x);
  }

  /** The mapped part holds exactly the shifted images of the span's points
      the entry takes. */
  lemma MappedPoints(e: Entry, s: Span, y: int)
    ensures Covers(MappedPart(e, s), y) <==> var x := y - e.dst + e.src; s.start <= x < s.end && InEntry(e, x)
  {
    var mid := Middle(e, s);
    KeepCovers(Span(Shift(e, mid.start), Shift(e, mid.end)), y);
  }

  lemma CoversLast(spans: seq<Span>, x: int)
    requires |spans| > 0
    ensures var s := spans[|spans| - 1];
            Covers(spans, x) <==> Covers(spans[..|spans| - 1], x) || s.start <= x < s.end
  {
    var s := spans[|spans| - 1];
    assert spans == spans[..|spans| - 1] + [s];
    CoversAppend(spans[..|spans| - 1], [s], x);
    KeepCovers(s, x);
    assert Keep(s) == [s] || (Keep(s) == [] && s.end <= s.start);
    if Covers([s], x) {
      assert [s][0] == s;
    }
    if s.start <= x < s.end {
      assert [s][0].start <= x < [s][0].end;
    }
  }

  /** One entry's pass maps exactly the points the entry takes. */
  lemma {:induction false} SplitEntryMapped(e: Entry, spans: seq<Span>, y: int)
    ensures var x := y - e.dst + e.src;
            Covers(SplitEntry(e, spans).0, y) <==> Covers(spans, x) && InEntry(e, x)
    decreases |spans|
  {
    if |spans| > 0 {
      var s := spans[|spans| - 1];
      var init := spans[..|spans| - 1];
      SplitEntryMapped(e, init, y);
      CoversAppend(MappedPart(e, s), SplitEntry(e, init).0, y);
      MappedPoints(e, s, y);
      CoversLast(spans, y - e.dst + e.src);
    }
  }

  /** One entry's pass leaves exactly the points the entry does not take. */
  lemma {:induction false} SplitEntryUnmapped(e: Entry, spans: seq<Span>, y: int)
    ensures Covers(SplitEntry(e, spans).1, y) <==> Covers(spans, y) && !InEntry(e, y)
    decreases |spans|
  {
    if |spans| > 0 {
      var s := spans[|spans| - 1];
      var init := spans[..|spans| - 1];
      SplitEntryUnmapped(e, init, y);
      CoversAppend(UnmappedPart(e, s), SplitEntry(e, init).1, y);
      UnmappedPoints(e, s, y);
      CoversLast(spans, y);
    }
  }

  lemma MatchesCons(m: Mapping, x: int)
    requires |m| > 0
    ensures Matches(m, x) <==> InEntry(m[0], x) || Matches(m[1..], x)
  {
    if Matches(m, x) && !InEntry(m[0], x) {
      var k :| 0 <= k < |m| && InEntry(m[k], x);
      assert m[1..][k - 1] == m[k];
    }
    if Matches(m[1..], x) {
      var k :| 0 <= k < |m| - 1 && InEntry(m[1..][k], x);
      assert m[k + 1] == m[1..][k];
    }
  }

  /** Every point of the input comes out of the pass: its image among the
      mapped spans when some entry takes it, itself among the untouched
      ones otherwise. */
  lemma {:induction false} PassComplete(m: Mapping, spans: seq<Span>, x: int)
    requires Covers(spans, x)
    ensures Matches(m, x) ==> Covers(Pass(m, spans).0, ApplyValue(m, x))
    ensures !Matches(m, x) ==> Covers(Pass(m, spans).1, x)
    decreases |m|
  {
    if |m| > 0 {
      var first := SplitEntry(m[0], spans);
      var later := Pass(m[1..], first.1);
      MatchesCons(m, x);
      if InEntry(m[0], x) {
        SplitEntryMapped(m[0], spans, Shift(m[0], x));
        CoversAppend(first.0, later.0, ApplyValue(m, x));
      } else {
        SplitEntryUnmapped(m[0], spans, x);
        PassComplete(m[1..], first.1, x);
        CoversAppend(first.0, later.0, ApplyValue(m, x));
      }
    }
  }

  /** An untouched point was in the input and no entry takes it. */
  lemma {:induction false} PassUnmapped(m: Mapping, spans: seq<Span>, u: int)
    requires Covers(Pass(m, spans).1, u)
    ensures Covers(spans, u) && !Matches(m, u)
    decreases |m|
  {
    if |m| > 0 {
      var first := SplitEntry(m[0], spans);
      PassUnmapped(m[1..], first.1, u);
      SplitEntryUnmapped(m[0], spans, u);
      MatchesCons(m, u);
    }
  }

  /** A mapped point is the image of an input point some entry takes. */
  lemma {:induction false} PassMapped(m: Mapping, spans: seq<Span>, y: int) returns (x: int)
    requires Covers(Pass(m, spans).0, y)
    ensures Covers(spans, x) && Matches(m, x) && ApplyValue(m, x) == y
    decreases |m|
  {
    var first := SplitEntry(m[0], spans);
    var later := Pass(m[1..], first.1);
    CoversAppend(first.0, later.0, y);
    if Covers(first.0, y) {
      x := y - m[0].dst + m[0].src;
      SplitEntryMapped(m[0], spans, y);
      MatchesCons(m, x);
    } else {
      x := PassMapped(m[1..], first.1, y);
      SplitEntryUnmapped(m[0], spans, x);
      MatchesCons(m, x);
    }
  }

  /** The points the output spans cover are exactly the images, under the
      first-match value mapping, of the points the input spans cover. */
  lemma ApplyRangesPoints(m: Mapping, spans: seq<Span>, y: int)
    ensures Covers(ApplyRanges(m, spans), y) <==> exists x :: Covers(spans, x) && ApplyValue(m, x) == y
  {
    var p := Pass(m, spans);
    CoversAppend(p.0, p.1, y);
    if Covers(p.0, y) {
      var x := PassMapped(m, spans, y);
    } else if Covers(p.1, y) {
      PassUnmapped(m, spans, y);
    }
    if exists x :: Covers(spans, x) && ApplyValue(m, x) == y {
      var x :| Covers(spans, x) && ApplyValue(m, x) == y;
      PassComplete(m, spans, x);
      CoversAppend(p.0, p.1, y);
    }
  }

  lemma TotalLenAppend(a: seq<Span>, b: seq<Span>)
    ensures TotalLen(a + b) == TotalLen(a) + TotalLen(b)
    decreases |b|
  {
    if |b| > 0 {
      assert (a + b)[..|a + b| - 1] == a + b[..|b| - 1];
      assert (a + b)[|a + b| - 1] == b[|b| - 1];
      TotalLenAppend(a, b[..|b| - 1]);
    } else {
      assert a + b == a;
    }
  }

  /** A non-negative entry cuts a span into parts whose lengths add up to
      the span's. */
  lemma SplitSpanLength(e: Entry, s: Span)
    requires e.size >= 0
    ensures TotalLen(MappedPart(e, s)) + TotalLen(UnmappedPart(e, s)) == Len(s)
  {
    TotalLenAppend(Keep(Below(e, s)), Keep(Above(e, s)));
    assert TotalLen([Below(e, s)]) == Len(Below(e, s));
    assert TotalLen([Above(e, s)]) == Len(Above(e, s));
    var mid := Middle(e, s);
    assert TotalLen([Span(Shift(e, mid.start), Shift(e, mid.end))]) == Len(mid);
  }

  lemma {:induction false} SplitEntryLength(e: Entry, spans: seq<Span>)
    requires e.size >= 0
    ensures TotalLen(SplitEntry(e, spans).0) + TotalLen(SplitEntry(e, spans).1) == TotalLen(spans)
    decreases |spans|
  {
    if |spans| > 0 {
      var s := spans[|spans| - 1];
      var rest := SplitEntry(e, spans[..|spans| - 1]);
      SplitEntryLength(e, spans[..|spans| - 1]);
      SplitSpanLength(e, s);
      TotalLenAppend(MappedPart(e, s), rest.0);
      TotalLenAppend(UnmappedPart(e, s), rest.1);
    }
  }

  predicate NonNegativeSizes(m: Mapping)
  {
    forall k :: 0 <= k < |m| ==> m[k].size >= 0
  }

  lemma {:induction false} PassLength(m: Mapping, spans: seq<Span>)
    requires NonNegativeSizes(m)
    ensures TotalLen(Pass(m, spans).0) + TotalLen(Pass(m, spans).1) == TotalLen(spans)
    decreases |m|
  {
    if |m| > 0 {
      var first := SplitEntry(m[0], spans);
      var later := Pass(m[1..], first.1);
      SplitEntryLength(m[0], spans);
      assert NonNegativeSizes(m[1..]) by {
        forall k | 0 <= k < |m| - 1 ensures m[1..][k].size >= 0 {
          assert m[1..][k] == m[k + 1];
        }
      }
      PassLength(m[1..], first.1);
      TotalLenAppend(first.0, later.0);
    }
  }

  /** With entries of non-negative size, mapping spans keeps their total
      length: every value lands somewhere, once. */
  lemma ApplyRangesKeepsLength(m: Mapping, spans: seq<Span>)
    requires NonNegativeSizes(m)
    ensures TotalLen(ApplyRanges(m, spans)) == TotalLen(spans)
  {
    PassLength(m, spans);
    TotalLenAppend(Pass(m, spans).0, Pass(m, spans).1);
  }

  lemma {:induction false} PassNonEmpty(m: Mapping, spans: seq<Span>)
    requires |m| > 0 || AllNonEmpty(spans)
    ensures AllNonEmpty(Pass(m, spans).0) && AllNonEmpty(Pass(m, spans).1)
    decreases |m|
  {
    if |m| > 0 {
      var first := SplitEntry(m[0], spans);
      PassNonEmpty(m[1..], first.1);
      AllNonEmptyAppend(first.0, Pass(m[1..], first.1).0);
    }
  }

  /** A mapping with entries only produces non-empty spans, and one without
      passes non-empty spans on unchanged. */
  lemma ApplyRangesNonEmpty(m: Mapping, spans: seq<Span>)
    requires |m| > 0 || AllNonEmpty(spans)
    ensures AllNonEmpty(ApplyRanges(m, spans))
  {
    PassNonEmpty(m, spans);
    AllNonEmptyAppend(Pass(m, spans).0, Pass(m, spans).1);
  }

  /** A seed through every mapping of the almanac in turn. */
  function MapSeed(mappings: seq<Mapping>, seed: int): int
  {
    if |mappings| == 0 then seed else MapSeed(mappings[1..], ApplyValue(mappings[0], seed))
  }

  /** Mapping through a chain is mapping through its first part and then
      its second. */
  lemma {:induction false} MapSeedComposes(first: seq<Mapping>, second: seq<Mapping>, seed: int)
    ensures MapSeed(first + second, seed) == MapSeed(second, MapSeed(first, seed))
    decreases |first|
  {
    if |first| > 0 {
      assert (first + second)[1..] == first[1..] + second;
      assert (first + second)[0] == first[0];
      MapSeedComposes(first[1..], second, ApplyValue(first[0], seed));
    } else {
      assert first + second == second;
    }
  }

  /** Spans through every mapping of the almanac in turn. */
  function ApplyAll(mappings: seq<Mapping>, spans: seq<Span>): seq<Span>
  {
    if |mappings| == 0 then spans else ApplyAll(mappings[1..], ApplyRanges(mappings[0], spans))
  }

  /** A point comes out of the chain of mappings exactly when it is the
      image of a point that went in. */
  lemma {:induction false} ApplyAllPoints(mappings: seq<Mapping>, spans: seq<Span>, y: int)
    ensures Covers(ApplyAll(mappings, spans), y) <==> exists x :: Covers(spans, x) && MapSeed(mappings, x) == y
    decreases |mappings|
  {
    if |mappings| > 0 {
      var m := mappings[0];
      var next := ApplyRanges(m, spans);
      ApplyAllPoints(mappings[1..], next, y);
      if Covers(ApplyAll(mappings, spans), y) {
        var z :| Covers(next, z) && MapSeed(mappings[1..], z) == y;
        ApplyRangesPoints(m, spans, z);
        var x :| Covers(spans, x) && ApplyValue(m, x) == z;
        assert MapSeed(mappings, x) == y;
      }
      if exists x :: Covers(spans, x) && MapSeed(mappings, x) == y {
        var x :| Covers(spans, x) && MapSeed(mappings, x) == y;
        ApplyRangesPoints(m, spans, ApplyValue(m, x));
        assert Covers(next, ApplyValue(m, x));
      }
    }
  }

  lemma {:induction false} ApplyAllNonEmpty(mappings: seq<Mapping>, spans: seq<Span>)
    requires AllNonEmpty(spans)
    ensures AllNonEmpty(ApplyAll(mappings, spans))
    decreases |mappings|
  {
    if |mappings| > 0 {
      ApplyRangesNonEmpty(mappings[0], spans);
      ApplyAllNonEmpty(mappings[1..], ApplyRanges(mappings[0], spans));
    }
  }

  /** The least start among the spans. */
  function MinStart(spans: seq<Span>): (r: int)
    requires |spans| > 0
    ensures exists k :: 0 <= k < |spans| && spans[k].start == r
    ensures forall k :: 0 <= k < |spans| ==> r <= spans[k].start
  {
    if |spans| == 1 then spans[0].start
    else
      var rest := MinStart(spans[1..]);
      assert forall k :: 1 <= k < |spans| ==> spans[1..][k - 1] == spans[k];
      Min(spans[0].start, rest)
  }

  /** The lowest location of the seed range `[src, src + size)`: the least
      start of the spans the range maps to.  Taking the minimum of nothing
      raises. */
  function MapSeedRange(mappings: seq<Mapping>, src: int, size: int): Result<int>
  {
    var spans := ApplyAll(mappings, [Span(src, src + size)]);
    if |spans| == 0 then Err("min() arg is an empty sequence") else Ok(MinStart(spans))
  }

  /** For a non-empty seed range the result is the least location any of its
      seeds maps to: one seed reaches it and none goes lower. */
  lemma MapSeedRangeIsMinimum(mappings: seq<Mapping>, src: int, size: int)
    requires size > 0
    ensures MapSeedRange(mappings, src, size).Ok?
    ensures var v := MapSeedRange(mappings, src, size).value;
            (exists x :: src <= x < src + size && MapSeed(mappings, x) == v)
            && forall x :: src <= x < src + size ==> v <= MapSeed(mappings, x)
  {
    var input := [Span(src, src + size)];
    var spans := ApplyAll(mappings, input);
    ApplyAllNonEmpty(mappings, input);
    assert input[0].start <= src < input[0].end;
    assert Covers(input, src);
    ApplyAllPoints(mappings, input, MapSeed(mappings, src));
    assert |spans| > 0;
    var v := MinStart(spans);
    var k :| 0 <= k < |spans| && spans[k].start == v;
    assert Covers(spans, v);
    ApplyAllPoints(mappings, input, v);
    var x0 :| Covers(input, x0) && MapSeed(mappings, x0) == v;
    assert src <= x0 < src + size;
    forall x | src <= x < src + size
      ensures v <= MapSeed(mappings, x)
    {
      assert input[0].start <= x < input[0].end;
      assert Covers(input, x);
      ApplyAllPoints(mappings, input, MapSeed(mappings, x));
      var j :| 0 <= j < |spans| && spans[j].start <= MapSeed(mappings, x) < spans[j].end;
    }
  }
}
