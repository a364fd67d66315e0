/** Lens library: the HASH of a string, the `label=focal` and `label-`
    steps that put lenses into and take them out of 256 boxes, and the
    focusing power of the lenses once every step is done. */
module Day15 {
  import opened Common

  /** The code JavaScript's `charCodeAt(0)` gives for one character of a
      `for ... of` loop: the character itself below 0x10000, otherwise the
      high half of its UTF-16 surrogate pair. */
  function Code(c: char): (r: nat)
    ensures r < 0x10000
    ensures c as int < 0x10000 ==> r == c as int
  {
    if c as int < 0x10000 then c as int else 0xD800 + (c as int - 0x10000) / 0x400
  }

  function Pow17(n: nat): nat
  {
    if n == 0 then 1 else 17 * Pow17(n - 1)
  }

  /** The polynomial the HASH reduces: each character's code times 17 to
      the power of its distance from the end, plus one. */
  function Poly(data: seq<char>): nat
  {
    if |data| == 0 then 0 else Code(data[0]) * Pow17(|data|) + Poly(data[1..])
  }

  lemma {:induction false} PolyAppend(data: seq<char>, c: char)
    ensures Poly(data + [c]) == (Poly(data) + Code(c)) * 17
    decreases |data|
  {
    if |data| == 0 {
      assert (data + [c])[1..] == [];
    } else {
      assert (data + [c])[1..] == data[1..] + [c];
      PolyAppend(data[1..], c);
      assert Code(data[0]) * Pow17(|data| + 1) == Code(data[0]) * Pow17(|data|) * 17;
    }
  }

  /** `(a % 256 + c) * 17 % 256` forgets nothing of `a` that matters. */
  lemma ModStep(a: nat, c: nat)
    ensures ((a % 256 + c) * 17) % 256 == ((a + c) * 17) % 256
  {
    var q := a / 256;
    assert a == 256 * q + a % 256;
    assert (a + c) * 17 == (a % 256 + c) * 17 + (17 * q) * 256;
    ModAddMultiple((a % 256 + c) * 17, 17 * q, 256);
  }

  /** The HASH: add the code, times 17, modulo 256, character by
      character.  It is the polynomial reduced modulo 256, so it is a box
      number, and the empty string hashes to 0. */
  method HashAlgorithm(data: seq<char>) returns (value: nat)
    ensures value == Poly(data) % 256
    ensures value < 256
    ensures data == [] ==> value == 0
  {
    value := 0;
    for i := 0 to |data|
      invariant value == Poly(data[..i]) % 256
    {
      assert data[..i + 1] == data[..i] + [data[i]];
      PolyAppend(data[..i], data[i]);
      ModStep(Poly(data[..i]), Code(data[i]));
      value := ((value + Code(data[i])) * 17) % 256;
    }
    assert data[..|data|] == data;
  }

  function Hash(data: seq<char>): (r: nat)
    ensures r < 256
  {
    Poly(data) % 256
  }

  /** One more character updates the HASH from the old value alone. */
  lemma HashAppend(data: seq<char>, c: char)
    ensures Hash(data + [c]) == ((Hash(data) + Code(c)) * 17) % 256
  {
    PolyAppend(data, c);
    ModStep(Poly(data), Code(c));
  }

  /** The text before the first `sep`, all of it when there is none: the
      first token of JavaScript's `split(sep)`. */
  function Before(s: seq<char>, sep: char): (r: seq<char>)
    ensures sep !in r
    ensures r <= s
    ensures sep in s ==> |r| < |s| && s[|r|] == sep
    ensures sep !in s ==> r == s
  {
    if |s| == 0 || s[0] == sep then [] else [s[0]] + Before(s[1..], sep)
  }

  /** The text after the first `sep`. */
  function After(s: seq<char>, sep: char): seq<char>
    requires sep in s
  {
    s[|Before(s, sep)| + 1..]
  }

  predicate IsDigit(c: char)
  {
    '0' <= c <= '9'
  }

  function DigitsValue(digits: seq<char>): nat
    requires forall k :: 0 <= k < |digits| ==> IsDigit(digits[k])
  {
    if |digits| == 0 then 0
    else
      var last := digits[|digits| - 1];
      assert IsDigit(last);
      10 * DigitsValue(digits[..|digits| - 1]) + (last as int - '0' as int)
  }

  /** The leading run of decimal digits. */
  function LeadingDigits(s: seq<char>): (r: seq<char>)
    ensures r <= s
    ensures forall k :: 0 <= k < |r| ==> IsDigit(r[k])
    ensures |r| < |s| ==> !IsDigit(s[|r|])
  {
    if |s| == 0 || !IsDigit(s[0]) then [] else [s[0]] + LeadingDigits(s[1..])
  }

  /** `parseInt` as the value of the leading digit run; with no digit the
      result is `NaN`, here an error. */
  function ParseInt(s: seq<char>): Result<nat>
  {
    var digits := LeadingDigits(s);
    if |digits| == 0 then Err("NaN") else Ok(DigitsValue(digits))
  }

  /** A parsed step; `name` is the lens label. */
  datatype Step = Insert(name: seq<char>, focalLength: nat) | Remove(name: seq<char>)

  /** A step with '=' inserts the lens labelled before it with the focal
      length after it; any other step removes the lens labelled before its
      first '-'. */
  function ParseStep(step: seq<char>): (r: Result<Step>)
    ensures '=' in step ==> (r.Ok? ==> r.value.Insert? && r.value.name == Before(step, '='))
    ensures '=' !in step ==> r == Ok(Remove(Before(step, '-')))
    ensures r.Ok? ==> '=' !in r.value.name
  {
    if '=' in step then
      var focal := ParseInt(Before(After(step, '='), '='));
      if focal.Err? then Err(focal.reason) else Ok(Insert(Before(step, '='), focal.value))
    else Ok(Remove(Before(step, '-')))
  }

  function Decimal(n: nat): (r: seq<char>)
    ensures |r| > 0
    ensures forall k :: 0 <= k < |r| ==> IsDigit(r[k])
  {
    if n < 10 then [('0' as int + n) as char] else Decimal(n / 10) + [('0' as int + n % 10) as char]
  }

  lemma {:induction false} DecimalValue(n: nat)
    ensures DigitsValue(Decimal(n)) == n
    decreases n
  {
    if n >= 10 {
      DecimalValue(n / 10);
      assert Decimal(n)[..|Decimal(n)| - 1] == Decimal(n / 10);
    }
  }

  lemma LeadingDigitsAll(s: seq<char>)
    requires forall k :: 0 <= k < |s| ==> IsDigit(s[k])
    ensures LeadingDigits(s) == s
  {
  }

  lemma BeforePrefix(name: seq<char>, rest: seq<char>, sep: char)
    requires sep !in name
    ensures Before(name + [sep] + rest, sep) == name
  {
    var s := name + [sep] + rest;
    var r := Before(s, sep);
    assert s[|name|] == sep;
    assert forall k :: 0 <= k < |name| ==> s[k] == name[k];
    assert |r| == |name|;
  }

  /** Printing a step and parsing it back gives the step again, for labels
      free of '=' and '-'. */
  lemma ParseStepRoundTrip(name: seq<char>, focal: nat)
    requires '=' !in name && '-' !in name
    ensures ParseStep(name + "=" + Decimal(focal)) == Ok(Insert(name, focal))
    ensures ParseStep(name + "-") == Ok(Remove(name))
  {
    var s := name + "=" + Decimal(focal);
    BeforePrefix(name, Decimal(focal), '=');
    assert '=' in s by {
      assert s[|name|] == '=';
    }
    assert After(s, '=') == Decimal(focal);
    assert '=' !in Decimal(focal) by {
      forall k | 0 <= k < |Decimal(focal)| ensures Decimal(focal)[k] != '=' {
        assert IsDigit(Decimal(focal)[k]);
      }
    }
    LeadingDigitsAll(Decimal(focal));
    DecimalValue(focal);
    var t := name + "-";
    BeforePrefix(name, [], '-');
    assert t == name + ['-'] + [];
    assert '=' !in t;
  }

  /** A lens in a box: its label and focal length. */
  datatype Lens = Lens(name: seq<char>, focalLength: nat)

  type Box = seq<Lens>

  predicate HasLabel(box: Box, name: seq<char>)
  {
    exists k :: 0 <= k < |box| && box[k].name == name
  }

  /** `i` is the first slot holding the label. */
  predicate FirstSlot(box: Box, name: seq<char>, i: int)
  {
    0 <= i < |box| && box[i].name == name && forall k :: 0 <= k < i ==> box[k].name != name
  }

  predicate DistinctLabels(box: Box)
  {
    forall i, j :: 0 <= i < j < |box| ==> box[i].name != box[j].name
  }

  /** `=`: a lens with the label already in the box takes the new focal
      length in its slot; otherwise the new lens goes at the back. */
  function InsertLens(box: Box, name: seq<char>, focal: nat): (r: Box)
    ensures !HasLabel(box, name) ==> r == box + [Lens(name, focal)]
    ensures forall i :: FirstSlot(box, name, i) ==> r == box[i := Lens(name, focal)]
    decreases |box|
  {
    if |box| == 0 then [Lens(name, focal)]
    else if box[0].name == name then [Lens(name, focal)] + box[1..]
    else
      var rest := InsertLens(box[1..], name, focal);
      assert forall i :: FirstSlot(box, name, i) ==> FirstSlot(box[1..], name, i - 1);
      assert !HasLabel(box, name) ==> !HasLabel(box[1..], name);
      [box[0]] + rest
  }

  /** `-`: the first lens with the label leaves the box and the lenses
      behind it move forward; without one nothing changes. */
  function RemoveLens(box: Box, name: seq<char>): (r: Box)
    ensures !HasLabel(box, name) ==> r == box
    ensures forall i :: FirstSlot(box, name, i) ==> r == box[..i] + box[i + 1..]
    decreases |box|
  {
    if |box| == 0 then []
    else if box[0].name == name then box[1..]
    else
      var rest := RemoveLens(box[1..], name);
      RemoveLensStep(box, name, rest);
      [box[0]] + rest
  }

  /** One step of `RemoveLens` past a first lens with another label. */
  lemma RemoveLensStep(box: Box, name: seq<char>, rest: Box)
    requires |box| > 0 && box[0].name != name
    requires !HasLabel(box[1..], name) ==> rest == box[1..]
    requires forall i :: FirstSlot(box[1..], name, i) ==> rest == box[1..][..i] + box[1..][i + 1..]
    ensures !HasLabel(box, name) ==> [box[0]] + rest == box
    ensures forall i :: FirstSlot(box, name, i) ==> [box[0]] + rest == box[..i] + box[i + 1..]
  {
    if !HasLabel(box, name) {
      assert !HasLabel(box[1..], name) by {
        forall k | 0 <= k < |box| - 1 ensures box[1..][k].name != name {
          assert box[1..][k] == box[k + 1];
        }
      }
    }
    forall i | FirstSlot(box, name, i)
      ensures [box[0]] + rest == box[..i] + box[i + 1..]
    {
      assert FirstSlot(box[1..], name, i - 1);
      assert box[1..][..i - 1] == box[1..i];
      assert box[1..][i..] == box[i + 1..];
    }
  }

  lemma FirstSlotExists(box: Box, name: seq<char>) returns (i: nat)
    requires HasLabel(box, name)
    ensures FirstSlot(box, name, i)
  {
    var k :| 0 <= k < |box| && box[k].name == name;
    i := 0;
    while box[i].name != name
      invariant 0 <= i <= k
      invariant forall j :: 0 <= j < i ==> box[j].name != name
      decreases k - i
    {
      i := i + 1;
    }
  }

  /** Cutting the slot that holds a label out of a box with distinct
      labels leaves distinct labels, none of them that one. */
  lemma CutKeepsDistinct(box: Box, name: seq<char>, i: nat)
    requires DistinctLabels(box) && FirstSlot(box, name, i)
    ensures DistinctLabels(box[..i] + box[i + 1..])
    ensures !HasLabel(box[..i] + box[i + 1..], name)
  {
    var r := box[..i] + box[i + 1..];
    assert forall k :: 0 <= k < |r| ==> r[k] == box[if k < i then k else k + 1];
    forall k | 0 <= k < |r|
      ensures r[k].name != name
    {
      var k' := if k < i then k else k + 1;
      assert r[k] == box[k'] && k' != i;
    }
  }

  /** Inserting and removing keep the labels in a box distinct; after a
      removal the label is gone, after an insertion it is there with the
      new focal length. */
  lemma LensOpsKeepLabelsDistinct(box: Box, name: seq<char>, focal: nat)
    requires DistinctLabels(box)
    ensures DistinctLabels(InsertLens(box, name, focal))
    ensures DistinctLabels(RemoveLens(box, name))
    ensures !HasLabel(RemoveLens(box, name), name)
    ensures exists k :: 0 <= k < |InsertLens(box, name, focal)| && InsertLens(box, name, focal)[k] == Lens(name, focal)
  {
    if HasLabel(box, name) {
      var i := FirstSlotExists(box, name);
      CutKeepsDistinct(box, name, i);
      assert InsertLens(box, name, focal)[i] == Lens(name, focal);
    } else {
      var r := InsertLens(box, name, focal);
      assert r[|box|] == Lens(name, focal);
    }
  }

  /** Taking a label out and putting it back moves it to the back of the
      box with the new focal length. */
  lemma ReinsertGoesLast(box: Box, name: seq<char>, focal: nat)
    requires DistinctLabels(box)
    ensures InsertLens(RemoveLens(box, name), name, focal) == RemoveLens(box, name) + [Lens(name, focal)]
  {
    LensOpsKeepLabelsDistinct(box, name, focal);
  }

  /** Inserting the same lens twice is inserting it once. */
  lemma InsertIdempotent(box: Box, name: seq<char>, focal: nat)
    ensures InsertLens(InsertLens(box, name, focal), name, focal) == InsertLens(box, name, focal)
  {
    var r := InsertLens(box, name, focal);
    if HasLabel(box, name) {
      var i := FirstSlotExists(box, name);
      assert FirstSlot(r, name, i);
      assert r[i := Lens(name, focal)] == r;
    } else {
      assert FirstSlot(r, name, |box|);
      assert r[|box| := Lens(name, focal)] == r;
    }
  }

  /** The 256 boxes; a box the source has not yet created holds no lenses
      and is modelled as an empty one. */
  type Boxes = seq<Box>

  const BoxCount := 256

  function EmptyBoxes(): (r: Boxes)
    ensures |r| == BoxCount
    ensures forall b :: 0 <= b < |r| ==> r[b] == []
  {
    seq(BoxCount, _ => [])
  }

  /** One step of the initialization sequence acts on the box its label
      hashes to, and on no other box. */
  function ApplyStep(boxes: Boxes, step: Step): (r: Boxes)
    requires |boxes| == BoxCount
    ensures |r| == BoxCount
    ensures forall b :: 0 <= b < BoxCount && b != Hash(step.name) ==> r[b] == boxes[b]
    ensures step.Insert? ==> r[Hash(step.name)] == InsertLens(boxes[Hash(step.name)], step.name, step.focalLength)
    ensures step.Remove? ==> r[Hash(step.name)] == RemoveLens(boxes[Hash(step.name)], step.name)
  {
    var h := Hash(step.name);
    match step
    case Insert(name, focal) => boxes[h := InsertLens(boxes[h], name, focal)]
    case Remove(name) => boxes[h := RemoveLens(boxes[h], name)]
  }

  function ApplySteps(boxes: Boxes, steps: seq<Step>): (r: Boxes)
    requires |boxes| == BoxCount
    ensures |r| == BoxCount
    decreases |steps|
  {
    if |steps| == 0 then boxes else ApplySteps(ApplyStep(boxes, steps[0]), steps[1..])
  }

  /** Every lens sits in the box its label hashes to, and no box holds a
      label twice. */
  predicate Filed(boxes: Boxes)
  {
    && |boxes| == BoxCount
    && (forall b :: 0 <= b < BoxCount ==> DistinctLabels(boxes[b]))
    && (forall b, k :: 0 <= b < BoxCount && 0 <= k < |boxes[b]| ==> Hash(boxes[b][k].name) == b)
  }

  lemma InsertKeepsNames(box: Box, name: seq<char>, focal: nat, k: nat)
    requires k < |InsertLens(box, name, focal)|
    ensures InsertLens(box, name, focal)[k].name == name || (k < |box| && InsertLens(box, name, focal)[k] == box[k])
  {
    if HasLabel(box, name) {
      var i := FirstSlotExists(box, name);
    }
  }

  lemma RemoveKeepsNames(box: Box, name: seq<char>, k: nat)
    requires k < |RemoveLens(box, name)|
    ensures exists j :: 0 <= j < |box| && RemoveLens(box, name)[k] == box[j]
  {
    if HasLabel(box, name) {
      var i := FirstSlotExists(box, name);
      assert RemoveLens(box, name)[k] == box[if k < i then k else k + 1];
    } else {
      assert RemoveLens(box, name)[k] == box[k];
    }
  }

  lemma ApplyStepKeepsFiled(boxes: Boxes, step: Step)
    requires Filed(boxes)
    ensures Filed(ApplyStep(boxes, step))
  {
    var h := Hash(step.name);
    var r: Boxes := ApplyStep(boxes, step);
    match step
    case Insert(name, focal) =>
      LensOpsKeepLabelsDistinct(boxes[h], name, focal);
      forall k | 0 <= k < |r[h]|
        ensures Hash(r[h][k].name) == h
      {
        InsertKeepsNames(boxes[h], name, focal, k);
      }
    case Remove(name) =>
      LensOpsKeepLabelsDistinct(boxes[h], name, 0);
      forall k | 0 <= k < |r[h]|
        ensures Hash(r[h][k].name) == h
      {
        RemoveKeepsNames(boxes[h], name, k);
      }
  }

  /** Running the initialization sequence from empty boxes leaves every
      lens in its label's box, each label at most once. */
  lemma {:induction false} ApplyStepsKeepsFiled(boxes: Boxes, steps: seq<Step>)
    requires Filed(boxes)
    ensures Filed(ApplySteps(boxes, steps))
    decreases |steps|
  {
    if |steps| > 0 {
      ApplyStepKeepsFiled(boxes, steps[0]);
      ApplyStepsKeepsFiled(ApplyStep(boxes, steps[0]), steps[1..]);
    }
  }

  /** Part 1: the sum of the hashes of all steps. */
  function HashSum(steps: seq<seq<char>>): (r: nat)
    ensures r <= 255 * |steps|
  {
    if |steps| == 0 then 0 else Hash(steps[0]) + HashSum(steps[1..])
  }

  /** The focusing power of one box: each lens contributes its box number
      plus one, times its slot plus one, times its focal length. */
  function BoxPower(box: Box, b: nat): nat
  {
    if |box| == 0 then 0
    else BoxPower(box[..|box| - 1], b) + (b + 1) * |box| * box[|box| - 1].focalLength
  }

  function TotalPower(boxes: Boxes): nat
  {
    if |boxes| == 0 then 0
    else TotalPower(boxes[..|boxes| - 1]) + BoxPower(boxes[|boxes| - 1], |boxes| - 1)
  }

  /** Changing the lens in one slot changes the box's power by that slot's
      weight times the change in focal length. */
  lemma {:induction false} SlotUpdatePower(box: Box, b: nat, i: nat, lens: Lens)
    requires i < |box|
    ensures BoxPower(box[i := lens], b) + (b + 1) * (i + 1) * box[i].focalLength
         == BoxPower(box, b) + (b + 1) * (i + 1) * lens.focalLength
    decreases |box|
  {
    var n := |box| - 1;
    var r := box[i := lens];
    if i < n {
      assert r[..n] == box[..n][i := lens];
      SlotUpdatePower(box[..n], b, i, lens);
    } else {
      assert r[..n] == box[..n];
    }
  }

  /** Inserting a lens changes the power of its box by the new lens's
      contribution: at the back when the label is new, or in the slot of
      the lens it replaces, whose contribution goes. */
  lemma InsertLensPower(box: Box, b: nat, name: seq<char>, focal: nat)
    ensures !HasLabel(box, name) ==>
      BoxPower(InsertLens(box, name, focal), b) == BoxPower(box, b) + (b + 1) * (|box| + 1) * focal
    ensures forall i :: FirstSlot(box, name, i) ==>
      BoxPower(InsertLens(box, name, focal), b) + (b + 1) * (i + 1) * box[i].focalLength
        == BoxPower(box, b) + (b + 1) * (i + 1) * focal
  {
    if HasLabel(box, name) {
      var i := FirstSlotExists(box, name);
      SlotUpdatePower(box, b, i, Lens(name, focal));
    } else {
      assert (box + [Lens(name, focal)])[..|box|] == box;
    }
  }

  /** The inner loop of part 2: adds one box's lenses to the running sum. */
  method AddBoxPower(acc: nat, box: Box, iBox: nat) returns (part2: nat)
    ensures part2 == acc + BoxPower(box, iBox)
  {
    part2 := acc;
    var iLens := 0;
    while iLens < |box|
      invariant 0 <= iLens <= |box|
      invariant part2 == acc + BoxPower(box[..iLens], iBox)
    {
      assert box[..iLens + 1][..iLens] == box[..iLens];
      part2 := part2 + (iBox + 1) * (iLens + 1) * box[iLens].focalLength;
      iLens := iLens + 1;
    }
    assert box[..iLens] == box;
  }

  /** Part 2: the loop over boxes and slots adds up the total power. */
  method FocusingPower(boxes: Boxes) returns (part2: nat)
    ensures part2 == TotalPower(boxes)
  {
    part2 := 0;
    var iBox := 0;
    while iBox < |boxes|
      invariant 0 <= iBox <= |boxes|
      invariant part2 == TotalPower(boxes[..iBox])
    {
      assert boxes[..iBox + 1][..iBox] == boxes[..iBox];
      part2 := AddBoxPower(part2, boxes[iBox], iBox);
      iBox := iBox + 1;
    }
    assert boxes[..iBox] == boxes;
  }
}
