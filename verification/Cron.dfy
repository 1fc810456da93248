/** Six-field cron expressions (internal/automation/cron.go). */
module Cron {
  import opened Basics
  import opened Text

  // ----- what an expression means -----

  datatype Part = Star | Every(step: int) | Exactly(value: int) | Bad

  /** One comma-separated part of a field, already trimmed. */
  function ReadPart(part: string, min: int, max: int): Part {
    if part == "*" then Star
    else if |part| >= 2 && part[..2] == "*/" then
      var step := Atoi(part[2..]);
      if step.Some? && step.value > 0 then Every(step.value) else Bad
    else
      var v := Atoi(part);
      if v.Some? && min <= v.value <= max then Exactly(v.value) else Bad
  }

  /** The parts of a field in order. */
  function ReadParts(texts: seq<string>, min: int, max: int): (ps: seq<Part>)
    ensures |ps| == |texts|
    ensures forall k | 0 <= k < |ps| :: ps[k] == ReadPart(TrimSpace(texts[k]), min, max)
  {
    if texts == [] then [] else [ReadPart(TrimSpace(texts[0]), min, max)] + ReadParts(texts[1..], min, max)
  }

  function FieldParts(f: string, min: int, max: int): seq<Part> {
    ReadParts(Split(TrimSpace(f), ','), min, max)
  }

  predicate ValidField(f: string, min: int, max: int) {
    TrimSpace(f) != "" && Bad !in FieldParts(f, min, max)
  }

  predicate OnGrid(v: int, min: int, step: int)
    requires step > 0
  {
    (v - min) % step == 0
  }

  predicate PartAdmits(p: Part, min: int, max: int, v: int) {
    match p
    case Star => min <= v <= max
    case Every(step) => step > 0 && min <= v <= max && OnGrid(v, min, step)
    case Exactly(value) => v == value
    case Bad => false
  }

  /** Some part of the field admits `v`. */
  ghost predicate Admits(f: string, min: int, max: int, v: int) {
    exists p | p in FieldParts(f, min, max) :: PartAdmits(p, min, max, v)
  }

  /** The step after `min` leaves the range of int, so the loop counter wraps around. */
  predicate PartWraps(p: Part, min: int) {
    p.Every? && min + p.step > MAX_INT
  }

  ghost predicate Wraps(f: string, min: int, max: int) {
    exists p | p in FieldParts(f, min, max) :: PartWraps(p, min)
  }

  // ----- parseField -----

  ghost predicate Distinct(s: seq<int>) {
    forall i, j | 0 <= i < j < |s| :: s[i] != s[j]
  }

  /** The loop body shared by all three forms of a part. */
  function AddOnce(out: seq<int>, v: int): seq<int> {
    if v in out then out else out + [v]
  }

  lemma AddOnceAdds(out: seq<int>, v: int)
    requires Distinct(out)
    ensures Distinct(AddOnce(out, v))
    ensures forall x :: x in AddOnce(out, v) <==> x in out || x == v
  {
  }

  /** The values the machine-int loop `for v := min; v <= max; v += step` visits besides
      the admitted ones: none, unless the first step wraps around. */
  predicate Stray(min: int, step: int, v: int) {
    min + step > MAX_INT && (v == MIN_INT || v == -1)
  }

  lemma MultipleBound(step: int, k: int)
    requires step > 0
    ensures k >= 1 ==> step * k >= step
    ensures k <= -1 ==> step * k <= -step
  {
  }

  lemma DivisionIsUnique(x: int, step: int, q: int, d: int)
    requires step > 0 && x == step * q + d && 0 <= d < step
    ensures x % step == d
  {
    var y := x / step;
    assert x == step * y + x % step;
    assert step * (q - y) == x % step - d;
    MultipleBound(step, q - y);
  }

  /** After a grid point nothing is on the grid for one step. */
  lemma NextOnGrid(v: int, min: int, step: int, x: int)
    requires step > 0 && OnGrid(v, min, step)
    ensures OnGrid(v + step, min, step)
    ensures v < x < v + step ==> !OnGrid(x, min, step)
  {
    var q := (v - min) / step;
    assert v - min == step * q;
    assert v + step - min == step * (q + 1) + 0;
    DivisionIsUnique(v + step - min, step, q + 1, 0);
    if v < x < v + step {
      DivisionIsUnique(x - min, step, q, x - v);
    }
  }

  /** The values visited before the loop counter reaches `v`. */
  ghost predicate VisitedBelow(visited: set<int>, min: int, max: int, step: int, v: int)
    requires step > 0
  {
    forall x :: x in visited <==> min <= x < v && x <= max && OnGrid(x, min, step)
  }

  lemma VisitNext(visited: set<int>, min: int, max: int, step: int, v: int)
    requires step > 0 && min <= v <= max && OnGrid(v, min, step) && VisitedBelow(visited, min, max, step, v)
    ensures OnGrid(v + step, min, step) && VisitedBelow(visited + {v}, min, max, step, v + step)
  {
    forall x ensures OnGrid(v + step, min, step) && (v < x < v + step ==> !OnGrid(x, min, step)) {
      NextOnGrid(v, min, step, x);
    }
  }

  lemma OnlyMinVisited(visited: set<int>, min: int, max: int, step: int, v: int)
    requires 0 <= min <= max <= 59 && step > 59 && VisitedBelow(visited, min, max, step, v) && v > min
    ensures visited == {min}
    ensures forall x :: min <= x <= max && OnGrid(x, min, step) <==> x == min
  {
    assert OnGrid(min, min, step);
    forall x ensures min < x < min + step ==> !OnGrid(x, min, step) {
      NextOnGrid(min, min, step, x);
    }
    assert min in visited;
    forall x | x in visited ensures x == min {
      assert min <= x <= max && OnGrid(x, min, step);
    }
  }

  method AddRange(before: seq<int>, min: int, max: int, step: int) returns (out: seq<int>)
    requires 0 <= min <= 1 && min <= max <= 59 && 0 < step <= MAX_INT && Distinct(before)
    ensures Distinct(out)
    ensures forall x :: x in out <==> x in before || (min <= x <= max && OnGrid(x, min, step)) || Stray(min, step, x)
  {
    out := before;
    var v := min;
    ghost var visited, wrapped := {}, 0;
    while v <= max
      invariant Distinct(out)
      invariant forall x :: x in out <==> x in before || x in visited
      invariant 0 <= wrapped <= 3
      invariant wrapped == 0 ==> min <= v <= MAX_INT && OnGrid(v, min, step) && VisitedBelow(visited, min, max, step, v)
      invariant wrapped == 0 && v > max ==> min + step <= MAX_INT
      invariant wrapped > 0 ==> min + step > MAX_INT && min in visited
      invariant wrapped > 0 ==> forall x | min <= x <= max && OnGrid(x, min, step) :: x == min
      invariant wrapped == 1 ==> v == MIN_INT && visited == {min}
      invariant wrapped == 2 ==> v == -1 && visited == {min, MIN_INT}
      invariant wrapped == 3 ==> v == MAX_INT - 1 && visited == {min, MIN_INT, -1}
      decreases if wrapped == 0 then MAX_INT - v + 4 else 3 - wrapped
    {
      AddOnceAdds(out, v);
      out := AddOnce(out, v);
      if wrapped == 0 {
        VisitNext(visited, min, max, step, v);
      }
      visited := visited + {v};
      if wrapped == 0 && v + step > MAX_INT {
        OnlyMinVisited(visited, min, max, step, v + step);
        wrapped := 1;
      } else if wrapped > 0 {
        wrapped := wrapped + 1;
      }
      v := Wrap(v + step);
    }
    assert OnGrid(min, min, step);
  }

  /** What the loop for a part puts into the list: the admitted values, and the stray
      ones of a step that wraps around. */
  predicate Lists(p: Part, min: int, max: int, v: int) {
    PartAdmits(p, min, max, v) || (p.Every? && Stray(min, p.step, v))
  }

  /** The list built for the parts `ps`: everything they list, each value once. */
  ghost predicate Collected(out: seq<int>, ps: seq<Part>, min: int, max: int) {
    && Distinct(out)
    && (forall x :: x in out <==> exists p | p in ps :: Lists(p, min, max, x))
  }

  lemma CollectOne(before: seq<int>, out: seq<int>, ps: seq<Part>, p: Part, min: int, max: int)
    requires Collected(before, ps, min, max) && Distinct(out)
    requires forall x :: x in out <==> x in before || Lists(p, min, max, x)
    ensures Collected(out, ps + [p], min, max)
  {
    forall x ensures x in out <==> exists q | q in ps + [p] :: Lists(q, min, max, x) {
      if q :| q in ps + [p] && Lists(q, min, max, x) {
        assert q == p || q in ps;
      }
      if x in out && x in before {
        var q :| q in ps && Lists(q, min, max, x);
        assert q in ps + [p];
      } else if x in out {
        assert p in ps + [p];
      }
    }
  }

  lemma CollectNext(before: seq<int>, out: seq<int>, ps: seq<Part>, i: nat, min: int, max: int)
    requires i < |ps| && !ps[i].Bad? && Bad !in ps[..i] && Collected(before, ps[..i], min, max)
    requires Distinct(out) && forall x :: x in out <==> x in before || Lists(ps[i], min, max, x)
    ensures Bad !in ps[..i + 1] && Collected(out, ps[..i + 1], min, max)
  {
    CollectOne(before, out, ps[..i], ps[i], min, max);
    assert ps[..i + 1] == ps[..i] + [ps[i]];
  }

  /** One part: nothing for a bad one, otherwise its values are added to the list. */
  method AddPart(before: seq<int>, part: string, min: int, max: int) returns (r: Result<seq<int>>)
    requires 0 <= min <= 1 && min <= max <= 59 && Distinct(before)
    ensures r.Ok? <==> !ReadPart(part, min, max).Bad?
    ensures r.Ok? ==> Distinct(r.value)
    ensures r.Ok? ==> forall x :: x in r.value <==> x in before || Lists(ReadPart(part, min, max), min, max, x)
  {
    if part == "*" {
      var out := AddRange(before, min, max, 1);
      return Ok(out);
    }
    if |part| >= 2 && part[..2] == "*/" {
      var step := Atoi(part[2..]);
      if step.None? || step.value <= 0 {
        return Err("bad step");
      }
      var out := AddRange(before, min, max, step.value);
      return Ok(out);
    }
    var v := Atoi(part);
    if v.None? || v.value < min || v.value > max {
      return Err("bad value");
    }
    AddOnceAdds(before, v.value);
    r := Ok(AddOnce(before, v.value));
  }

  /** parseField, for the ranges the six fields use. */
  method ParseField(f: string, min: int, max: int) returns (r: Result<seq<int>>)
    requires 0 <= min <= 1 && min <= max <= 59
    ensures r.Ok? <==> ValidField(f, min, max)
    ensures r.Ok? ==> Collected(r.value, FieldParts(f, min, max), min, max)
  {
    if TrimSpace(f) == "" {
      return Err("empty field");
    }
    var texts := Split(TrimSpace(f), ',');
    ghost var ps := FieldParts(f, min, max);
    var out: seq<int> := [];
    var i := 0;
    while i < |texts|
      invariant 0 <= i <= |texts| == |ps|
      invariant Bad !in ps[..i]
      invariant Collected(out, ps[..i], min, max)
    {
      var added := AddPart(out, TrimSpace(texts[i]), min, max);
      if added.Err? {
        assert ps[i] == Bad;
        return added;
      }
      CollectNext(out, added.value, ps, i, min, max);
      out := added.value;
      i := i + 1;
    }
    assert ps[..i] == ps;
    r := Ok(out);
  }

  /** Every value a time can have is in the list exactly if the field admits it. */
  lemma ListedIffAdmitted(out: seq<int>, f: string, min: int, max: int, v: nat)
    requires Collected(out, FieldParts(f, min, max), min, max)
    ensures v in out <==> Admits(f, min, max, v)
  {
    if v in out {
      var p :| p in FieldParts(f, min, max) && Lists(p, min, max, v);
      assert PartAdmits(p, min, max, v);
    }
  }

  /** The list is exactly the set of admitted values if and only if no step wraps around. */
  lemma ExactIffNoWrap(out: seq<int>, f: string, min: int, max: int)
    requires 0 <= min <= 1 && min <= max <= 59 && ValidField(f, min, max) &&
             Collected(out, FieldParts(f, min, max), min, max)
    ensures (forall v :: v in out <==> Admits(f, min, max, v)) <==> !Wraps(f, min, max)
  {
    var ps := FieldParts(f, min, max);
    if p :| p in ps && PartWraps(p, min) {
      assert Lists(p, min, max, -1);
      assert -1 in out;
      forall q | q in ps ensures !PartAdmits(q, min, max, -1) {
        ExactlyInRange(f, min, max, q);
      }
    } else {
      forall v ensures v in out <==> Admits(f, min, max, v) {
        if v in out {
          var q :| q in ps && Lists(q, min, max, v);
          assert !PartWraps(q, min);
        }
      }
    }
  }

  // ----- the language of fields -----

  lemma {:induction false} ReadPartsAppend(a: seq<string>, b: seq<string>, min: int, max: int)
    ensures ReadParts(a + b, min, max) == ReadParts(a, min, max) + ReadParts(b, min, max)
  {
    if a == [] {
      assert a + b == b;
    } else {
      assert (a + b)[1..] == a[1..] + b;
      ReadPartsAppend(a[1..], b, min, max);
    }
  }

  lemma SameParts(a: seq<string>, b: seq<string>, min: int, max: int)
    requires |a| == |b| && forall k | 0 <= k < |a| :: TrimSpace(a[k]) == TrimSpace(b[k])
    ensures ReadParts(a, min, max) == ReadParts(b, min, max)
  {
  }

  lemma TrimmedAhead(a: string, s: string)
    requires AllSpaces(a)
    ensures TrimSpace(a + s) == TrimSpace(s)
  {
    var none: string := [];
    TrimAround(a, s, none);
    assert a + s + none == a + s;
  }

  lemma TrimmedBehind(s: string, b: string)
    requires AllSpaces(b)
    ensures TrimSpace(s + b) == TrimSpace(s)
  {
    var none: string := [];
    TrimAround(none, s, b);
    assert none + s == s;
  }

  lemma SpacesAhead(a: string, s: string, min: int, max: int)
    requires AllSpaces(a)
    ensures ReadParts(Split(a + s, ','), min, max) == ReadParts(Split(s, ','), min, max)
  {
    SplitAhead(a, s, ',');
    TrimmedAhead(a, Split(s, ',')[0]);
    SameParts(Split(a + s, ','), Split(s, ','), min, max);
  }

  lemma SpacesBehind(s: string, b: string, min: int, max: int)
    requires AllSpaces(b)
    ensures ReadParts(Split(s + b, ','), min, max) == ReadParts(Split(s, ','), min, max)
  {
    SplitBehind(s, b, ',');
    LastTrimmed(Split(s, ','), b, min, max);
  }

  lemma LastTrimmed(parts: seq<string>, b: string, min: int, max: int)
    requires parts != [] && AllSpaces(b)
    ensures ReadParts(WithLast(parts, b), min, max) == ReadParts(parts, min, max)
  {
    var longer, last := WithLast(parts, b), |parts| - 1;
    TrimmedBehind(parts[last], b);
    assert longer[last] == parts[last] + b && forall k | 0 <= k < last :: longer[k] == parts[k];
    SameParts(longer, parts, min, max);
  }

  /** As every part is trimmed, trimming the whole field changes nothing. */
  lemma PartsUntrimmed(f: string, min: int, max: int)
    ensures FieldParts(f, min, max) == ReadParts(Split(f, ','), min, max)
  {
    var a, b := TrimParts(f);
    SpacesBehind(a + TrimSpace(f), b, min, max);
    SpacesAhead(a, TrimSpace(f), min, max);
  }

  lemma PartsOfPair(a: string, b: string, min: int, max: int)
    ensures FieldParts(a + "," + b, min, max) == FieldParts(a, min, max) + FieldParts(b, min, max)
  {
    PartsUntrimmed(a + "," + b, min, max);
    PartsUntrimmed(a, min, max);
    PartsUntrimmed(b, min, max);
    SplitAtSep(a, ',', b);
    assert a + "," + b == a + [','] + b;
    ReadPartsAppend(Split(a, ','), Split(b, ','), min, max);
  }

  lemma BlankIsBad(f: string, min: int, max: int)
    requires TrimSpace(f) == ""
    ensures FieldParts(f, min, max) == [Bad]
  {
    assert Split("", ',') == [""] && TrimSpace("") == "";
    assert Atoi("") == None;
  }

  lemma PairNotBlank(a: string, b: string)
    ensures TrimSpace(a + "," + b) != ""
  {
    var f := a + "," + b;
    var c, d := TrimParts(f);
    assert f[|a|] == ',';
    assert TrimSpace(f) == "" ==> f == c + d;
  }

  /** A field of two lists is valid exactly if both are, and admits what one of them admits. */
  lemma PairExactly(a: string, b: string, min: int, max: int, v: int)
    ensures ValidField(a + "," + b, min, max) <==> ValidField(a, min, max) && ValidField(b, min, max)
    ensures Admits(a + "," + b, min, max, v) <==> Admits(a, min, max, v) || Admits(b, min, max, v)
  {
    var f, ps, qs := a + "," + b, FieldParts(a, min, max), FieldParts(b, min, max);
    PartsOfPair(a, b, min, max);
    PairNotBlank(a, b);
    if TrimSpace(a) == "" {
      BlankIsBad(a, min, max);
    }
    if TrimSpace(b) == "" {
      BlankIsBad(b, min, max);
    }
    forall p ensures p in FieldParts(f, min, max) <==> p in ps || p in qs {
    }
  }

  lemma SinglePart(f: string, min: int, max: int)
    requires ',' !in f
    ensures FieldParts(f, min, max) == [ReadPart(TrimSpace(f), min, max)]
  {
    PartsUntrimmed(f, min, max);
    SplitWhole(f, ',');
  }

  lemma OnePart(f: string, p: Part, min: int, max: int, v: int)
    requires FieldParts(f, min, max) == [p]
    ensures ValidField(f, min, max) <==> TrimSpace(f) != "" && p != Bad
    ensures Admits(f, min, max, v) <==> PartAdmits(p, min, max, v)
  {
    assert FieldParts(f, min, max)[0] == p;
  }

  /** A field that is a star, around which there may be white space. */
  lemma StarExactly(f: string, min: int, max: int, v: int)
    requires TrimSpace(f) == "*" && ',' !in f
    ensures ValidField(f, min, max) && (Admits(f, min, max, v) <==> min <= v <= max)
  {
    SinglePart(f, min, max);
    OnePart(f, Star, min, max, v);
  }

  lemma ReadStep(t: string, head: string, step: string, min: int, max: int)
    requires t == head + step && head == "*/"
    ensures ReadPart(t, min, max) ==
            if Atoi(step).Some? && Atoi(step).value > 0 then Every(Atoi(step).value) else Bad
  {
    assert t[..2] == head && t[2..] == step && |t| >= 2;
    assert t != "*";
  }

  /** A field that is a star with a step. */
  lemma StepExactly(f: string, step: string, min: int, max: int, v: int)
    requires TrimSpace(f) == "*/" + step && ',' !in f
    ensures ValidField(f, min, max) <==> Atoi(step).Some? && Atoi(step).value > 0
    ensures ValidField(f, min, max) ==>
              (Admits(f, min, max, v) <==> min <= v <= max && (v - min) % Atoi(step).value == 0)
  {
    SinglePart(f, min, max);
    ReadStep(TrimSpace(f), "*/", step, min, max);
    OnePart(f, ReadPart(TrimSpace(f), min, max), min, max, v);
  }

  /** Any other field without a comma: it has to be a number in the range, and admits that. */
  lemma NumberExactly(f: string, min: int, max: int, v: int)
    requires TrimSpace(f) != "*" && !(|TrimSpace(f)| >= 2 && TrimSpace(f)[..2] == "*/") && ',' !in f
    ensures ValidField(f, min, max) <==> Atoi(TrimSpace(f)).Some? && min <= Atoi(TrimSpace(f)).value <= max
    ensures ValidField(f, min, max) ==> (Admits(f, min, max, v) <==> v == Atoi(TrimSpace(f)).value)
  {
    SinglePart(f, min, max);
    OnePart(f, ReadPart(TrimSpace(f), min, max), min, max, v);
    if TrimSpace(f) == "" {
      BlankIsBad(f, min, max);
    }
  }

  /** Five digits read on top of `n`. */
  lemma FiveDigits(n: nat, s: string)
    requires |s| == 5 && AllDigits(s)
    ensures DenotesFrom(n, s) ==
            100000 * n + 10000 * Value(s[0]) + 1000 * Value(s[1]) + 100 * Value(s[2]) + 10 * Value(s[3]) + Value(s[4])
  {
    var a := 10 * n + Value(s[0]);
    var b := 10 * a + Value(s[1]);
    var c := 10 * b + Value(s[2]);
    var d := 10 * c + Value(s[3]);
    OneDigit(n, s, 0);
    OneDigit(a, s, 1);
    OneDigit(b, s, 2);
    OneDigit(c, s, 3);
    OneDigit(d, s, 4);
    assert s[0..] == s && s[5..] == [];
  }

  lemma OneDigit(n: nat, s: string, i: nat)
    requires i < |s| && AllDigits(s)
    ensures DenotesFrom(n, s[i..]) == DenotesFrom(10 * n + Value(s[i]), s[i + 1..])
  {
    assert s[i..][1..] == s[i + 1..];
  }

  function Value(c: char): int {
    c as int - '0' as int
  }

  lemma TwentyDigits(a: string, b: string, c: string, e: string)
    requires AllDigits(a) && AllDigits(b) && AllDigits(c) && AllDigits(e)
    ensures AllDigits(a + b + c + e)
    ensures Denotes(a + b + c + e) == DenotesFrom(DenotesFrom(DenotesFrom(DenotesFrom(0, a), b), c), e)
  {
    ReadDigits([], a);
    assert [] + a == a;
    ReadDigits(a, b);
    ReadDigits(a + b, c);
    ReadDigits(a + b + c, e);
  }

  lemma MaxIntDenoted(d: string)
    requires d == "9223372036854775807"
    ensures AllDigits(d) && Denotes(d) == MAX_INT
  {
    MaxIntGroups("09223", "37203", "68547", "75807");
    PaddedMaxInt("0", d, "09223", "37203", "68547", "75807");
    LeadingZero(d);
  }

  lemma PaddedMaxInt(zero: string, d: string, a: string, b: string, c: string, e: string)
    requires zero == "0" && d == "9223372036854775807"
    requires a == "09223" && b == "37203" && c == "68547" && e == "75807"
    ensures a + b + c + e == zero + d
  {
  }

  lemma MaxIntGroups(a: string, b: string, c: string, e: string)
    requires a == "09223" && b == "37203" && c == "68547" && e == "75807"
    ensures AllDigits(a + b + c + e) && Denotes(a + b + c + e) == MAX_INT
  {
    FiveDigits(0, a);
    FiveDigits(9223, b);
    FiveDigits(922337203, c);
    FiveDigits(92233720368547, e);
    TwentyDigits(a, b, c, e);
  }

  lemma {:induction false} LeadingZero(d: string)
    requires AllDigits(d)
    ensures AllDigits("0" + d) && Denotes("0" + d) == Denotes(d)
  {
    if d == [] {
      assert "0" + d == "0" && "0"[..0] == [];
    } else {
      LeadingZero(d[..|d| - 1]);
      assert ("0" + d)[..|d|] == "0" + d[..|d| - 1];
    }
  }

  /** A day field that is accepted and wraps around. */
  lemma WrapsSomewhere(f: string)
    requires f == "*/9223372036854775807"
    ensures ValidField(f, 1, 31) && Wraps(f, 1, 31)
  {
    assert Trimmed(f) && TrimSpace(f) == f;
    SplitWhole(f, ',');
    var step := f[2..];
    MaxIntDenoted(step);
    assert f[..2] == "*/" && f != "*";
    assert Atoi(step) == Some(MAX_INT);
    assert ReadPart(f, 1, 31) == Every(MAX_INT);
    assert FieldParts(f, 1, 31) == [Every(MAX_INT)];
    assert PartWraps(FieldParts(f, 1, 31)[0], 1);
  }

  lemma ExactlyInRange(f: string, min: int, max: int, q: Part)
    requires q in FieldParts(f, min, max)
    ensures q.Exactly? ==> min <= q.value <= max
  {
  }

  // ----- nextCron -----

  /** Instants are nanoseconds since the epoch. */
  const SECOND := 1_000_000_000

  datatype Civil = Civil(second: nat, minute: nat, hour: nat, day: nat, month: nat, weekday: nat)

  /** What package time supplies: the civil time of a whole second, and the instant three
      years after another one. */
  datatype Calendar = Calendar(civil: int -> Civil, horizon: int -> int)

  ghost predicate MatchesFields(fields: seq<string>, c: Civil)
    requires |fields| == 6
  {
    && Admits(fields[0], 0, 59, c.second)
    && Admits(fields[1], 0, 59, c.minute)
    && Admits(fields[2], 0, 23, c.hour)
    && Admits(fields[3], 1, 31, c.day)
    && Admits(fields[4], 1, 12, c.month)
    && Admits(fields[5], 0, 6, c.weekday)
  }

  predicate ValidFields(fields: seq<string>) {
    && |fields| == 6
    && ValidField(fields[0], 0, 59) && ValidField(fields[1], 0, 59) && ValidField(fields[2], 0, 23)
    && ValidField(fields[3], 1, 31) && ValidField(fields[4], 1, 12) && ValidField(fields[5], 0, 6)
  }

  /** The component of a time that the `k`-th field speaks of, and its range. */
  function Component(c: Civil, k: nat): nat {
    if k == 0 then c.second else if k == 1 then c.minute else if k == 2 then c.hour
    else if k == 3 then c.day else if k == 4 then c.month else c.weekday
  }

  function Least(k: nat): nat {
    if k == 3 || k == 4 then 1 else 0
  }

  function Greatest(k: nat): nat {
    if k <= 1 then 59 else if k == 2 then 23 else if k == 3 then 31 else if k == 4 then 12 else 6
  }

  predicate InRange(c: Civil) {
    forall k: nat | k < 6 :: Least(k) <= Component(c, k) <= Greatest(k)
  }

  ghost predicate FieldAdmits(fields: seq<string>, c: Civil, k: nat)
    requires k < |fields|
  {
    Admits(fields[k], Least(k), Greatest(k), Component(c, k))
  }

  predicate FieldValid(fields: seq<string>, k: nat)
    requires k < |fields|
  {
    ValidField(fields[k], Least(k), Greatest(k))
  }

  /** A field is valid over the range of the component it speaks of. */
  lemma SixFieldsExactly(fields: seq<string>)
    ensures ValidFields(fields) <==>
            && |fields| == 6
            && FieldValid(fields, 0) && FieldValid(fields, 1) && FieldValid(fields, 2)
            && FieldValid(fields, 3) && FieldValid(fields, 4) && FieldValid(fields, 5)
  {
  }

  lemma AdmittedByField(fields: seq<string>, c: Civil)
    requires |fields| == 6
    ensures MatchesFields(fields, c) <==>
            && FieldAdmits(fields, c, 0) && FieldAdmits(fields, c, 1) && FieldAdmits(fields, c, 2)
            && FieldAdmits(fields, c, 3) && FieldAdmits(fields, c, 4) && FieldAdmits(fields, c, 5)
  {
  }

  /** With stars everywhere but in the `k`-th field, exactly the times match whose `k`-th
      component that field admits; the fields are second, minute, hour, day, month, weekday. */
  lemma OnlyFieldDecides(fields: seq<string>, k: nat, c: Civil)
    requires |fields| == 6 && k < 6 && InRange(c)
    requires forall j: nat | j < 6 && j != k :: TrimSpace(fields[j]) == "*" && ',' !in fields[j]
    ensures ValidFields(fields) <==> ValidField(fields[k], Least(k), Greatest(k))
    ensures MatchesFields(fields, c) <==> Admits(fields[k], Least(k), Greatest(k), Component(c, k))
  {
    SixFieldsExactly(fields);
    AdmittedByField(fields, c);
    forall j: nat | j < 6 && j != k ensures FieldAdmits(fields, c, j) && FieldValid(fields, j) {
      StarExactly(fields[j], Least(j), Greatest(j), Component(c, j));
    }
  }

  function Tick(after: int, k: int): int {
    after + k * SECOND
  }

  /** The scan's `k`-th candidate lies before the horizon and matches. */
  ghost predicate Fires(cal: Calendar, fields: seq<string>, after: int, k: int)
    requires |fields| == 6
  {
    k >= 1 && Tick(after, k) < cal.horizon(after) && MatchesFields(fields, cal.civil(Tick(after, k) / SECOND))
  }

  ghost predicate NoneBefore(cal: Calendar, fields: seq<string>, after: int, k: int)
    requires |fields| == 6
  {
    forall j | 1 <= j < k :: !Fires(cal, fields, after, j)
  }

  lemma NoneBeforeNext(cal: Calendar, fields: seq<string>, after: int, k: int)
    requires |fields| == 6 && NoneBefore(cal, fields, after, k) && !Fires(cal, fields, after, k)
    ensures NoneBefore(cal, fields, after, k + 1)
  {
    forall j | 1 <= j < k + 1 ensures !Fires(cal, fields, after, j) {
      if j != k {
        assert 1 <= j < k;
      }
    }
  }

  lemma NoneFires(cal: Calendar, fields: seq<string>, after: int, k: int)
    requires |fields| == 6 && NoneBefore(cal, fields, after, k) && Tick(after, k) >= cal.horizon(after)
    ensures forall j :: !Fires(cal, fields, after, j)
  {
    forall j ensures !Fires(cal, fields, after, j) {
      if j >= k {
        assert Tick(after, j) >= Tick(after, k);
      }
    }
  }

  /** `t` is the first firing time after `after`. */
  ghost predicate IsNext(cal: Calendar, fields: seq<string>, after: int, t: int)
    requires |fields| == 6
  {
    exists k :: Fires(cal, fields, after, k) && t == Tick(after, k) && NoneBefore(cal, fields, after, k)
  }

  method Contains(list: seq<int>, v: int) returns (found: bool)
    ensures found <==> v in list
  {
    var i := 0;
    while i < |list|
      invariant 0 <= i <= |list|
      invariant v !in list[..i]
    {
      if list[i] == v {
        return true;
      }
      i := i + 1;
    }
    return false;
  }

  /** The six parsed lists. */
  datatype Lists6 = Lists6(secs: seq<int>, mins: seq<int>, hours: seq<int>, days: seq<int>, months: seq<int>,
          weeks: seq<int>)

  ghost predicate ListsFor(ls: Lists6, fields: seq<string>) {
    && |fields| == 6
    && Collected(ls.secs, FieldParts(fields[0], 0, 59), 0, 59)
    && Collected(ls.mins, FieldParts(fields[1], 0, 59), 0, 59)
    && Collected(ls.hours, FieldParts(fields[2], 0, 23), 0, 23)
    && Collected(ls.days, FieldParts(fields[3], 1, 31), 1, 31)
    && Collected(ls.months, FieldParts(fields[4], 1, 12), 1, 12)
    && Collected(ls.weeks, FieldParts(fields[5], 0, 6), 0, 6)
  }

  method ParseFields(fields: seq<string>) returns (r: Result<Lists6>)
    ensures r.Ok? <==> ValidFields(fields)
    ensures r.Ok? ==> ListsFor(r.value, fields)
  {
    if |fields| != 6 {
      return Err("expected 6 fields");
    }
    var secs := ParseField(fields[0], 0, 59);
    if secs.Err? { return Err("second"); }
    var mins := ParseField(fields[1], 0, 59);
    if mins.Err? { return Err("minute"); }
    var hours := ParseField(fields[2], 0, 23);
    if hours.Err? { return Err("hour"); }
    var days := ParseField(fields[3], 1, 31);
    if days.Err? { return Err("day"); }
    var months := ParseField(fields[4], 1, 12);
    if months.Err? { return Err("month"); }
    var weeks := ParseField(fields[5], 0, 6);
    if weeks.Err? { return Err("weekday"); }
    r := Ok(Lists6(secs.value, mins.value, hours.value, days.value, months.value, weeks.value));
  }

  method Matches(ls: Lists6, c: Civil, ghost fields: seq<string>) returns (m: bool)
    requires ListsFor(ls, fields)
    ensures m <==> MatchesFields(fields, c)
  {
    ListedIffAdmitted(ls.secs, fields[0], 0, 59, c.second);
    ListedIffAdmitted(ls.mins, fields[1], 0, 59, c.minute);
    ListedIffAdmitted(ls.hours, fields[2], 0, 23, c.hour);
    ListedIffAdmitted(ls.days, fields[3], 1, 31, c.day);
    ListedIffAdmitted(ls.months, fields[4], 1, 12, c.month);
    ListedIffAdmitted(ls.weeks, fields[5], 0, 6, c.weekday);
    m := Contains(ls.months, c.month);
    if m { m := Contains(ls.days, c.day); }
    if m { m := Contains(ls.weeks, c.weekday); }
    if m { m := Contains(ls.hours, c.hour); }
    if m { m := Contains(ls.mins, c.minute); }
    if m { m := Contains(ls.secs, c.second); }
  }

  /** The scan, second by second, up to the horizon. */
  method Scan(after: int, lists: Lists6, cal: Calendar, ghost fields: seq<string>) returns (found: Option<int>)
    requires ListsFor(lists, fields)
    ensures found.Some? ==> IsNext(cal, fields, after, found.value)
    ensures found.None? ==> forall k :: !Fires(cal, fields, after, k)
  {
    var t := after + SECOND;
    ghost var k := 1;
    while t < cal.horizon(after)
      invariant k >= 1 && t == Tick(after, k)
      invariant NoneBefore(cal, fields, after, k)
      decreases cal.horizon(after) - t
    {
      var m := Matches(lists, cal.civil(t / SECOND), fields);
      assert m <==> Fires(cal, fields, after, k);
      if m {
        return Some(t);
      }
      NoneBeforeNext(cal, fields, after, k);
      t := t + SECOND;
      k := k + 1;
    }
    NoneFires(cal, fields, after, k);
    found := None;
  }

  /** The six fields admit the time of the second in which the instant lies. */
  ghost predicate MatchesAt(cal: Calendar, fields: seq<string>, t: int)
    requires |fields| == 6
  {
    exists c :: MatchesFields(fields, c) && c == cal.civil(t / 1_000_000_000)
  }

  /** `t` is a whole number of seconds away from the start. */
  predicate WholeSecondsOn(after: int, t: int) {
    (t - after) % 1_000_000_000 == 0
  }

  lemma WholeTick(after: int, t: int) returns (j: int)
    requires after < t && WholeSecondsOn(after, t)
    ensures j >= 1 && t == Tick(after, j)
  {
    j := (t - after) / 1_000_000_000;
  }

  /** No instant before the first firing time, or before the horizon if there is none,
      matches a number of whole seconds after the start. */
  lemma NoneEarlier(cal: Calendar, fields: seq<string>, after: int, found: Option<int>, t: int)
    requires |fields| == 6 && (if found.Some? then IsNext(cal, fields, after, found.value)
                               else forall k :: !Fires(cal, fields, after, k))
    requires after < t < (if found.Some? then found.value else cal.horizon(after)) && MatchesAt(cal, fields, t)
    ensures !WholeSecondsOn(after, t)
  {
    if WholeSecondsOn(after, t) {
      var j := WholeTick(after, t);
      if found.Some? {
        var k :| Fires(cal, fields, after, k) && found.value == Tick(after, k) && NoneBefore(cal, fields, after, k);
        TicksIncrease(after, j, k);
      }
      assert Fires(cal, fields, after, j);
    }
  }

  lemma TicksIncrease(after: int, j: int, k: int)
    requires Tick(after, j) < Tick(after, k)
    ensures j < k
  {
  }

  lemma TickIsWhole(after: int, k: int)
    requires k >= 1
    ensures after < Tick(after, k) && WholeSecondsOn(after, Tick(after, k))
  {
    assert Tick(after, k) - after == k * 1_000_000_000;
  }

  /** Between the two instants none matches a number of whole seconds after the first. */
  ghost predicate Silent(cal: Calendar, fields: seq<string>, after: int, end: int)
    requires |fields| == 6
  {
    forall t | after < t < end && MatchesAt(cal, fields, t) :: !WholeSecondsOn(after, t)
  }

  /** `t` is a matching instant before the horizon, whole seconds after the start, and none
      comes before it. */
  ghost predicate IsFirst(cal: Calendar, fields: seq<string>, after: int, t: int)
    requires |fields| == 6
  {
    && after < t < cal.horizon(after) && WholeSecondsOn(after, t)
    && MatchesAt(cal, fields, t) && Silent(cal, fields, after, t)
  }

  lemma NextIsFirst(cal: Calendar, fields: seq<string>, after: int, t: int)
    requires |fields| == 6 && IsNext(cal, fields, after, t)
    ensures IsFirst(cal, fields, after, t)
  {
    var k := FirstTick(cal, fields, after, t);
    TickIsWhole(after, k);
    SilentBefore(cal, fields, after, t);
  }

  lemma FirstTick(cal: Calendar, fields: seq<string>, after: int, t: int) returns (k: int)
    requires |fields| == 6 && IsNext(cal, fields, after, t)
    ensures k >= 1 && t == Tick(after, k) && t < cal.horizon(after) && MatchesAt(cal, fields, t)
  {
    k :| Fires(cal, fields, after, k) && t == Tick(after, k);
  }

  lemma SilentBefore(cal: Calendar, fields: seq<string>, after: int, t: int)
    requires |fields| == 6 && IsNext(cal, fields, after, t)
    ensures Silent(cal, fields, after, t)
  {
    forall u | after < u < t && MatchesAt(cal, fields, u) ensures !WholeSecondsOn(after, u) {
      NoneEarlier(cal, fields, after, Some(t), u);
    }
  }

  lemma NoneIsSilent(cal: Calendar, fields: seq<string>, after: int)
    requires |fields| == 6 && forall k :: !Fires(cal, fields, after, k)
    ensures Silent(cal, fields, after, cal.horizon(after))
  {
    forall u | after < u < cal.horizon(after) && MatchesAt(cal, fields, u)
      ensures !WholeSecondsOn(after, u)
    {
      NoneEarlier(cal, fields, after, None, u);
    }
  }

  /** nextCron: the least firing time; it fails exactly for an invalid field or when no
      time before the horizon matches. */
  method NextFields(after: int, fields: seq<string>, cal: Calendar) returns (r: Result<int>)
    ensures r.Ok? ==> ValidFields(fields) && IsNext(cal, fields, after, r.value)
    ensures r.Ok? ==> IsFirst(cal, fields, after, r.value)
    ensures r.Err? && ValidFields(fields) ==> Silent(cal, fields, after, cal.horizon(after))
    ensures r.Err? <==> !ValidFields(fields) || forall k :: !Fires(cal, fields, after, k)
  {
    var lists := ParseFields(fields);
    if lists.Err? {
      return Err(lists.reason);
    }
    var found := Scan(after, lists.value, cal, fields);
    r := if found.Some? then Ok(found.value) else Err("no next time within horizon");
    if found.Some? {
      NextIsFirst(cal, fields, after, found.value);
    } else {
      NoneIsSilent(cal, fields, after);
    }
  }

  /** NextCron validates against the current time first, so it also fails when nothing
      matches within three years of `now`. */
  method NextCron(after: int, expr: string, now: int, cal: Calendar) returns (r: Result<int>)
    ensures r.Ok? ==> ValidFields(WordsOf(expr)) && IsNext(cal, WordsOf(expr), after, r.value)
    ensures var fields := WordsOf(expr);
            r.Err? <==>
            || !ValidFields(fields)
            || (forall k :: !Fires(cal, fields, now, k))
            || (forall k :: !Fires(cal, fields, after, k))
  {
    var fields := WordsOf(expr);
    if |fields| != 6 {
      return Err("expected 6 fields");
    }
    var probe := NextFields(now, fields, cal);
    if probe.Err? {
      return probe;
    }
    r := NextFields(after, fields, cal);
  }

  /** Two first firing times are the same, and a firing time is at least a second later,
      on a later whole second, which matches. */
  lemma NextIsUnique(cal: Calendar, fields: seq<string>, after: int, t: int, u: int)
    requires |fields| == 6 && IsNext(cal, fields, after, t) && IsNext(cal, fields, after, u)
    ensures t == u
  {
    var k :| Fires(cal, fields, after, k) && t == Tick(after, k) && NoneBefore(cal, fields, after, k);
    var m :| Fires(cal, fields, after, m) && u == Tick(after, m) && NoneBefore(cal, fields, after, m);
    assert !(k < m) && !(m < k);
  }

  lemma NextIsLater(cal: Calendar, fields: seq<string>, after: int, t: int)
    requires |fields| == 6 && IsNext(cal, fields, after, t)
    ensures t >= after + SECOND && t / SECOND > after / SECOND
    ensures MatchesFields(fields, cal.civil(t / SECOND))
  {
    var k :| Fires(cal, fields, after, k) && t == Tick(after, k);
    WholeSeconds(after, k);
  }

  lemma WholeSeconds(after: int, k: int)
    ensures Tick(after, k) / SECOND == after / SECOND + k
  {
  }

  /** nextCron as a function of the instant it starts from. */
  ghost function NextAfter(cal: Calendar, fields: seq<string>, after: int): (t: Option<int>)
    requires |fields| == 6
    ensures t.Some? ==> IsNext(cal, fields, after, t.value)
    ensures t.None? ==> forall u :: !IsNext(cal, fields, after, u)
  {
    if exists u :: IsNext(cal, fields, after, u) then var u :| IsNext(cal, fields, after, u); Some(u) else None
  }
}
