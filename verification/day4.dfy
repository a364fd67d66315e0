/** Scratchcards: each line "Card <id>: <winning numbers> | <numbers you
    have>" scores the numbers you have that are winning.  Part 1 doubles the
    points per match; in part 2 a card with `m` matches wins one copy of each
    of the next `m` cards, once per copy of itself. */
module Day4 {
  import opened Common
  import opened CText

  /** The card numbers index a table of this size. */
  const MaxNumberInWinningMap: nat := 100
  /** The copy counts are a table of this size. */
  const MaxNumberCards: nat := 202

  /** The first index from `i` on holding `c`; running off the line is the
      original's read past the terminator. */
  function FindChar(s: string, i: nat, c: char): (r: Result<nat>)
    requires i <= |s|
    ensures r.Ok? ==> i <= r.value < |s| && s[r.value] == c
                      && forall k :: i <= k < r.value ==> s[k] != c
    ensures r.Err? <==> forall k :: i <= k < |s| ==> s[k] != c
    decreases |s| - i
  {
    if i == |s| then Err("no such character before the end of the line")
    else if s[i] == c then Ok(i)
    else FindChar(s, i + 1, c)
  }

  /** The first digit from `i` on. */
  function SkipNonDigits(s: string, i: nat): (r: Result<nat>)
    requires i <= |s|
    ensures r.Ok? ==> i <= r.value < |s| && IsDigit(s[r.value])
                      && forall k :: i <= k < r.value ==> !IsDigit(s[k])
    ensures r.Err? <==> forall k :: i <= k < |s| ==> !IsDigit(s[k])
    decreases |s| - i
  {
    if i == |s| then Err("no digit before the end of the line")
    else if IsDigit(s[i]) then Ok(i)
    else SkipNonDigits(s, i + 1)
  }

  /** The winning numbers, read from `i` until a '|' stands where the scan
      resumes: each number is the digit run at the next digit, and the scan
      skips the digit run and one more character.  Returns the numbers and
      the index of the '|'. */
  function WinningNumbers(s: string, i: nat): (r: Result<(seq<nat>, nat)>)
    requires i <= |s|
    ensures r.Ok? ==> i <= r.value.1 < |s| && s[r.value.1] == '|'
    ensures r.Ok? ==> forall k :: 0 <= k < |r.value.0| ==> r.value.0[k] < MaxNumberInWinningMap
    decreases |s| - i
  {
    if At(s, i) == '|' then Ok(([], i))
    else
      match SkipNonDigits(s, i)
      case Err(e) => Err(e)
      case Ok(j) =>
        var n := Atoi(s, j);
        var e := DigitRunEnd(s, j);
        if n >= MaxNumberInWinningMap then Err("number too large for the winning map")
        else if e == |s| then Err("no '|' before the end of the line")
        else
          match WinningNumbers(s, e + 1)
          case Err(e) => Err(e)
          case Ok((ns, bar)) => Ok(([n] + ns, bar))
  }

  /** The numbers you have, read from `i` to the newline or terminator. */
  function HaveNumbers(s: string, i: nat): (r: Result<seq<nat>>)
    requires i <= |s|
    ensures r.Ok? ==> forall k :: 0 <= k < |r.value| ==> r.value[k] < MaxNumberInWinningMap
    decreases |s| - i
  {
    if At(s, i) == '\n' || At(s, i) == '\0' then Ok([])
    else
      match SkipNonDigits(s, i)
      case Err(e) => Err(e)
      case Ok(j) =>
        var n := Atoi(s, j);
        if n >= MaxNumberInWinningMap then Err("number too large for the winning map")
        else
          match HaveNumbers(s, DigitRunEnd(s, j))
          case Err(e) => Err(e)
          case Ok(ns) => Ok([n] + ns)
  }

  /** The numbers of `ns` as a set. */
  function Elems(ns: seq<nat>): (r: set<nat>)
    ensures forall k :: 0 <= k < |ns| ==> ns[k] in r
  {
    if |ns| == 0 then {} else {ns[0]} + Elems(ns[1..])
  }

  /** How many of `ns` are in `win`, counted with repetition. */
  function MatchCount(ns: seq<nat>, win: set<nat>): (r: nat)
    ensures r <= |ns|
  {
    if |ns| == 0 then 0 else (if ns[0] in win then 1 else 0) + MatchCount(ns[1..], win)
  }

  /** The winning-map loop of the original: marks each winning number in
      the table and returns it with the index of the '|'. */
  function MarkWinning(s: string, i: nat, win: set<nat>): (r: Result<(set<nat>, nat)>)
    requires i <= |s|
    ensures r.Ok? ==> i <= r.value.1 < |s| && s[r.value.1] == '|'
    decreases |s| - i
  {
    if At(s, i) == '|' then Ok((win, i))
    else
      match SkipNonDigits(s, i)
      case Err(e) => Err(e)
      case Ok(j) =>
        var n := Atoi(s, j);
        var e := DigitRunEnd(s, j);
        if n >= MaxNumberInWinningMap then Err("number too large for the winning map")
        else if e == |s| then Err("no '|' before the end of the line")
        else MarkWinning(s, e + 1, win + {n})
  }

  /** The counting loop of the original. */
  function CountMatches(s: string, i: nat, win: set<nat>, count: nat): (r: Result<nat>)
    requires i <= |s|
    decreases |s| - i
  {
    if At(s, i) == '\n' || At(s, i) == '\0' then Ok(count)
    else
      match SkipNonDigits(s, i)
      case Err(e) => Err(e)
      case Ok(j) =>
        var n := Atoi(s, j);
        if n >= MaxNumberInWinningMap then Err("number too large for the winning map")
        else CountMatches(s, DigitRunEnd(s, j), win, count + (if n in win then 1 else 0))
  }

  /** The table holds exactly the winning numbers the collecting reading
      finds, and both stop at the same '|'. */
  lemma {:induction false} MarkingHoldsWinningNumbers(s: string, i: nat, win: set<nat>)
    requires i <= |s|
    ensures MarkWinning(s, i, win).Ok? <==> WinningNumbers(s, i).Ok?
    ensures MarkWinning(s, i, win).Ok? ==>
              MarkWinning(s, i, win).value == (win + Elems(WinningNumbers(s, i).value.0), WinningNumbers(s, i).value.1)
    decreases |s| - i
  {
    if At(s, i) == '|' {
      assert Elems([]) == {};
      assert win + Elems([]) == win;
    } else if SkipNonDigits(s, i).Ok? {
      var j := SkipNonDigits(s, i).value;
      var n := Atoi(s, j);
      var e := DigitRunEnd(s, j);
      if n < MaxNumberInWinningMap && e < |s| {
        assert MarkWinning(s, i, win) == MarkWinning(s, e + 1, win + {n});
        MarkingHoldsWinningNumbers(s, e + 1, win + {n});
        var rest := WinningNumbers(s, e + 1);
        if rest.Ok? {
          var ns := rest.value.0;
          assert WinningNumbers(s, i) == Ok(([n] + ns, rest.value.1));
          assert ([n] + ns)[1..] == ns;
          assert Elems([n] + ns) == {n} + Elems(ns);
          assert win + {n} + Elems(ns) == win + Elems([n] + ns);
        } else {
          assert WinningNumbers(s, i).Err?;
        }
      }
    }
  }

  /** The count is the number of held numbers that are in the table, so at
      most the number of held numbers. */
  lemma {:induction false} CountingCountsMatches(s: string, i: nat, win: set<nat>, count: nat)
    requires i <= |s|
    ensures CountMatches(s, i, win, count).Ok? <==> HaveNumbers(s, i).Ok?
    ensures CountMatches(s, i, win, count).Ok? ==>
              CountMatches(s, i, win, count).value == count + MatchCount(HaveNumbers(s, i).value, win)
    decreases |s| - i
  {
    if !(At(s, i) == '\n' || At(s, i) == '\0') && SkipNonDigits(s, i).Ok? {
      var j := SkipNonDigits(s, i).value;
      var n := Atoi(s, j);
      if n < MaxNumberInWinningMap {
        CountingCountsMatches(s, DigitRunEnd(s, j), win, count + (if n in win then 1 else 0));
        if HaveNumbers(s, DigitRunEnd(s, j)).Ok? {
          assert ([n] + HaveNumbers(s, DigitRunEnd(s, j)).value)[1..] == HaveNumbers(s, DigitRunEnd(s, j)).value;
        }
      }
    }
  }

  /** The matches of one card: the scan runs to the ':' and reads the
      winning numbers, then counts the held numbers that are winning. */
  function FindMatchesInCard(card: string): Result<nat>
  {
    match FindChar(card, 0, ':')
    case Err(e) => Err(e)
    case Ok(colon) =>
      match MarkWinning(card, colon, {})
      case Err(e) => Err(e)
      case Ok((win, bar)) => CountMatches(card, bar, win, 0)
  }

  /** A card's matches are its held numbers that occur among its winning
      numbers, so at most the number of held numbers. */
  lemma CardMatchesAreWinningHeld(card: string, colon: nat, ws: seq<nat>, bar: nat, hs: seq<nat>)
    requires FindChar(card, 0, ':') == Ok(colon)
    requires WinningNumbers(card, colon) == Ok((ws, bar))
    requires HaveNumbers(card, bar) == Ok(hs)
    ensures FindMatchesInCard(card) == Ok(MatchCount(hs, Elems(ws)))
    ensures MatchCount(hs, Elems(ws)) <= |hs|
  {
    MarkFromWinning(card, colon, ws, bar);
    CardCountsFromBar(card, colon, Elems(ws), bar);
    CountFromHave(card, bar, Elems(ws), hs);
  }

  lemma MarkFromWinning(card: string, colon: nat, ws: seq<nat>, bar: nat)
    requires colon <= |card| && WinningNumbers(card, colon) == Ok((ws, bar))
    ensures MarkWinning(card, colon, {}) == Ok((Elems(ws), bar))
  {
    MarkingHoldsWinningNumbers(card, colon, {});
    assert {} + Elems(ws) == Elems(ws);
  }

  lemma CountFromHave(card: string, bar: nat, win: set<nat>, hs: seq<nat>)
    requires bar <= |card| && HaveNumbers(card, bar) == Ok(hs)
    ensures CountMatches(card, bar, win, 0) == Ok(MatchCount(hs, win))
  {
    CountingCountsMatches(card, bar, win, 0);
  }

  lemma CardCountsFromBar(card: string, colon: nat, win: set<nat>, bar: nat)
    requires FindChar(card, 0, ':') == Ok(colon)
    requires MarkWinning(card, colon, {}) == Ok((win, bar))
    ensures FindMatchesInCard(card) == CountMatches(card, bar, win, 0)
  {
  }

  /** A card fails to read exactly when its colon, its winning numbers or
      its held numbers fail to read. */
  lemma CardFailsWhereReadingFails(card: string)
    ensures FindMatchesInCard(card).Err? <==>
              || FindChar(card, 0, ':').Err?
              || WinningNumbers(card, FindChar(card, 0, ':').value).Err?
              || HaveNumbers(card, WinningNumbers(card, FindChar(card, 0, ':').value).value.1).Err?
  {
    if FindChar(card, 0, ':').Ok? {
      var colon := FindChar(card, 0, ':').value;
      MarkingHoldsWinningNumbers(card, colon, {});
      if WinningNumbers(card, colon).Ok? {
        CountingCountsMatches(card, WinningNumbers(card, colon).value.1, MarkWinning(card, colon, {}).value.0, 0);
      }
    }
  }

  function GetPointValue(numberMatches: nat): nat
  {
    if numberMatches < 2 then numberMatches else 2 * GetPointValue(numberMatches - 1)
  }

  function Pow2(n: nat): (r: nat)
    ensures r >= 1
  {
    if n == 0 then 1 else 2 * Pow2(n - 1)
  }

  /** No match scores nothing; `n` matches score 2 to the power `n - 1`. */
  lemma {:induction false} PointValueDoubles(n: nat)
    ensures GetPointValue(n) == if n == 0 then 0 else Pow2(n - 1)
  {
    if n >= 2 {
      PointValueDoubles(n - 1);
    }
  }

  /** The reference count of copies of card `k`: the original, plus one
      copy per copy of every earlier card whose matches reach it. */
  function Copies(ms: seq<nat>, k: nat): (r: nat)
    requires k < |ms|
    ensures r >= 1
    decreases k, 1
  {
    1 + Received(ms, k, k)
  }

  /** The copies card `k` wins from the cards before `t`. */
  function Received(ms: seq<nat>, t: nat, k: nat): nat
    requires t <= |ms|
    decreases t, 0
  {
    if t == 0 then 0
    else Received(ms, t - 1, k) + (if t - 1 < k <= t - 1 + ms[t - 1] then Copies(ms, t - 1) else 0)
  }

  /** The copy loop of the original over a table of `MaxNumberCards`
      counts: each card counts itself, then adds its count to the next
      `matches` cards.  It fails where the original's table asserts fail. */
  method CountCards(ms: seq<nat>) returns (r: Result<seq<nat>>)
    ensures r.Err? <==> |ms| > MaxNumberCards || exists i :: 0 <= i < |ms| && i + ms[i] >= MaxNumberCards
    ensures r.Ok? ==> |r.value| == |ms| && forall k :: 0 <= k < |ms| ==> r.value[k] == Copies(ms, k)
  {
    var counts := seq(MaxNumberCards, _ => 0);
    var i := 0;
    while i < |ms|
      invariant i <= |ms| && i <= MaxNumberCards && |counts| == MaxNumberCards
      invariant forall j :: 0 <= j < i ==> j + ms[j] < MaxNumberCards
      invariant forall k :: 0 <= k < i ==> counts[k] == Copies(ms, k)
      invariant forall k :: i <= k < MaxNumberCards ==> counts[k] == Received(ms, i, k)
    {
      if i >= MaxNumberCards {
        return Err("too many cards");
      }
      counts := counts[i := counts[i] + 1];
      if i + ms[i] >= MaxNumberCards {
        return Err("copies past the last card slot");
      }
      var offset := 1;
      while offset <= ms[i]
        invariant 1 <= offset <= ms[i] + 1 && |counts| == MaxNumberCards
        invariant forall k :: 0 <= k <= i ==> counts[k] == Copies(ms, k)
        invariant forall k :: i < k < i + offset ==> counts[k] == Received(ms, i + 1, k)
        invariant forall k :: i + offset <= k < MaxNumberCards ==> counts[k] == Received(ms, i, k)
      {
        counts := counts[i + offset := counts[i + offset] + counts[i]];
        offset := offset + 1;
      }
      i := i + 1;
    }
    return Ok(counts[..|ms|]);
  }

  /** Copies only accumulate: a card has at least one copy more than any
      earlier card whose matches reach it. */
  lemma CopiesExceedReachingCard(ms: seq<nat>, j: nat, k: nat)
    requires j < k < |ms| && k <= j + ms[j]
    ensures Copies(ms, k) >= 1 + Copies(ms, j)
  {
    ReceivedGrows(ms, j + 1, k, k);
  }

  lemma {:induction false} ReceivedGrows(ms: seq<nat>, t: nat, t': nat, k: nat)
    requires t <= t' <= |ms|
    ensures Received(ms, t', k) >= Received(ms, t, k)
    decreases t' - t
  {
    if t < t' {
      ReceivedGrows(ms, t, t' - 1, k);
    }
  }

  /** Every result's value in order, or the first failure. */
  function CollectAll(rs: seq<Result<nat>>): (r: Result<seq<nat>>)
    ensures r.Ok? ==> |r.value| == |rs|
  {
    if |rs| == 0 then Ok([])
    else
      match CollectAll(rs[..|rs| - 1])
      case Err(e) => Err(e)
      case Ok(ms) =>
        match rs[|rs| - 1]
        case Err(e) => Err(e)
        case Ok(m) => Ok(ms + [m])
  }

  /** Collecting succeeds exactly when every result does, and then holds
      their values. */
  lemma {:induction false} CollectAllEach(rs: seq<Result<nat>>)
    ensures CollectAll(rs).Ok? ==> forall k :: 0 <= k < |rs| ==> rs[k] == Ok(CollectAll(rs).value[k])
    ensures CollectAll(rs).Err? <==> exists k :: 0 <= k < |rs| && rs[k].Err?
  {
    if |rs| > 0 {
      var init := rs[..|rs| - 1];
      CollectAllEach(init);
      if exists k :: 0 <= k < |init| && init[k].Err? {
        var k :| 0 <= k < |init| && init[k].Err?;
        assert rs[k] == init[k];
      }
      if exists k :: 0 <= k < |rs| && rs[k].Err? {
        var k :| 0 <= k < |rs| && rs[k].Err?;
        if k < |init| {
          assert rs[k] == init[k];
        }
      }
      if CollectAll(rs).Ok? {
        forall k | 0 <= k < |init|
          ensures rs[k] == init[k] && CollectAll(rs).value[k] == CollectAll(init).value[k]
        {
        }
      }
    }
  }

  /** The reading of every card. */
  function MatchResults(cards: seq<string>): (r: seq<Result<nat>>)
    ensures |r| == |cards| && forall k :: 0 <= k < |cards| ==> r[k] == FindMatchesInCard(cards[k])
  {
    seq(|cards|, k requires 0 <= k < |cards| => FindMatchesInCard(cards[k]))
  }

  /** The matches of every card, failing where a card fails to read. */
  function ReadAllMatches(cards: seq<string>): Result<seq<nat>>
  {
    CollectAll(MatchResults(cards))
  }

  /** The matches read are each card's, and reading fails exactly when some
      card fails to read. */
  lemma ReadAllMatchesReadsEach(cards: seq<string>)
    ensures ReadAllMatches(cards).Ok? ==>
              |ReadAllMatches(cards).value| == |cards|
              && forall k :: 0 <= k < |cards| ==> FindMatchesInCard(cards[k]) == Ok(ReadAllMatches(cards).value[k])
    ensures ReadAllMatches(cards).Err? <==> exists k :: 0 <= k < |cards| && FindMatchesInCard(cards[k]).Err?
  {
    CollectAllEach(MatchResults(cards));
  }

  /** The points of the cards. */
  function TotalPoints(ms: seq<nat>): nat
  {
    if |ms| == 0 then 0 else TotalPoints(ms[..|ms| - 1]) + GetPointValue(ms[|ms| - 1])
  }

  /** The copies of the first `n` cards. */
  function TotalCopies(ms: seq<nat>, n: nat): nat
    requires n <= |ms|
  {
    if n == 0 then 0 else TotalCopies(ms, n - 1) + Copies(ms, n - 1)
  }

  /** The per-card loop of the original: takes each card's matches and
      adds up its points. */
  method ReadCards(rs: seq<Result<nat>>) returns (r: Result<(seq<nat>, nat)>)
    ensures r.Ok? <==> CollectAll(rs).Ok?
    ensures r.Ok? ==> r.value == (CollectAll(rs).value, TotalPoints(CollectAll(rs).value))
  {
    var ms: seq<nat> := [];
    var points := 0;
    var i := 0;
    while i < |rs|
      invariant i <= |rs| && CollectAll(rs[..i]) == Ok(ms)
      invariant points == TotalPoints(ms)
    {
      assert rs[..i + 1][..i] == rs[..i];
      if rs[i].Err? {
        CollectAllKeepsFailing(rs, i + 1);
        return Err(rs[i].reason);
      }
      var m := rs[i].value;
      assert (ms + [m])[..|ms|] == ms;
      ms := ms + [m];
      points := points + GetPointValue(m);
      i := i + 1;
    }
    assert rs[..i] == rs;
    return Ok((ms, points));
  }

  /** A failure among the first `n` results fails the whole collection. */
  lemma {:induction false} CollectAllKeepsFailing(rs: seq<Result<nat>>, n: nat)
    requires n <= |rs| && CollectAll(rs[..n]).Err?
    ensures CollectAll(rs).Err?
    decreases |rs| - n
  {
    if n < |rs| {
      assert rs[..n + 1][..n] == rs[..n];
      CollectAllKeepsFailing(rs, n + 1);
    } else {
      assert rs[..n] == rs;
    }
  }

  /** The summing loop of the original over the copy counts. */
  method SumCounts(ms: seq<nat>, counts: seq<nat>) returns (total: nat)
    requires |counts| == |ms| && forall k :: 0 <= k < |ms| ==> counts[k] == Copies(ms, k)
    ensures total == TotalCopies(ms, |ms|)
  {
    total := 0;
    var k := 0;
    while k < |ms|
      invariant k <= |ms| && total == TotalCopies(ms, k)
    {
      total := total + counts[k];
      k := k + 1;
    }
  }

  /** Both parts over the cards: the points, and the total number of cards
      once all copies are won. */
  method Solve(cards: seq<string>) returns (r: Result<(nat, nat)>)
    ensures ReadAllMatches(cards).Err? ==> r.Err?
    ensures r.Ok? ==> ReadAllMatches(cards).Ok?
    ensures r.Ok? ==> r.value == (TotalPoints(ReadAllMatches(cards).value), TotalCopies(ReadAllMatches(cards).value, |cards|))
  {
    var read := ReadCards(MatchResults(cards));
    if read.Err? {
      return Err(read.reason);
    }
    var (ms, points) := read.value;
    var counted := CountCards(ms);
    if counted.Err? {
      return Err(counted.reason);
    }
    var total := SumCounts(ms, counted.value);
    return Ok((points, total));
  }
}
