/** Cron expressions: what a field matches, and which expressions may be saved. */
module CronFields {
  import opened Exceptions
  import opened Strings

  // ----- numbers -----

  const MAX_INT: int := 0x7fff_ffff_ffff_ffff
  const MIN_INT: int := -0x8000_0000_0000_0000

  predicate AllDigits(s: string) {
    s != "" && forall i :: 0 <= i < |s| ==> '0' <= s[i] <= '9'
  }

  function Decimal(s: string): nat
    requires forall i :: 0 <= i < |s| ==> '0' <= s[i] <= '9'
  {
    if s == "" then 0 else 10 * Decimal(s[..|s| - 1]) + (s[|s| - 1] as int - '0' as int)
  }

  /** `strconv.Atoi`: an optional sign and digits, in the range of a 64-bit integer. */
  function Atoi(s: string): Option<int> {
    var signed := s != "" && (s[0] == '+' || s[0] == '-');
    var digits := if signed then s[1..] else s;
    if !AllDigits(digits) then None
    else
      var d: int := Decimal(digits);
      var n: int := if signed && s[0] == '-' then -d else d;
      if MIN_INT <= n <= MAX_INT then Some(n) else None
  }

  // ----- one part of a field -----

  /** start, start + step, ... up to end. */
  datatype Progression = Progression(start: int, end: int, step: int)

  ghost predicate Member(p: Progression, val: int) {
    exists k: nat :: val == Term(p, k) && val <= p.end
  }

  function Term(p: Progression, k: nat): int {
    p.start + k * p.step
  }

  /** A part without its step. */
  function Base(part: string): string {
    part[..Index(part, '/')]
  }

  /** The step a part asks for; None if it is not a number. */
  function StepOf(part: string): Option<int> {
    var i := Index(part, '/');
    if i < |part| then Atoi(part[i + 1..]) else Some(1)
  }

  /** Both ends of a range. */
  function Range(base: string): Option<(int, int)> {
    var i := Index(base, '-');
    if i == |base| then None
    else
      var a, b := Atoi(base[..i]), Atoi(base[i + 1..]);
      if a.Some? && b.Some? then Some((a.value, b.value)) else None
  }

  /** What a part means in a field running from lo to hi; None where matching gives up. A bare value means
      itself, and with a step other than 1, every step-th value from it on. */
  function Meaning(part: string, lo: int, hi: int): Option<Progression> {
    var step := StepOf(part);
    var base := Base(part);
    if step.None? || step.value <= 0 then None
    else if base == "*" || base == "" then Some(Progression(lo, hi, step.value))
    else if '-' in base then
      var r := Range(base);
      if r.Some? then Some(Progression(r.value.0, r.value.1, step.value)) else None
    else
      var n := Atoi(base);
      if n.None? then None
      else if step.value == 1 then Some(Progression(n.value, n.value, 1))
      else Some(Progression(n.value, hi, step.value))
  }

  /** The test the matcher makes. */
  predicate Covers(p: Progression, val: int)
    requires p.step > 0
  {
    p.start <= val <= p.end && (val - p.start) % p.step == 0
  }

  lemma CoversIsMember(p: Progression, val: int)
    requires p.step > 0
    ensures Covers(p, val) <==> Member(p, val)
  {
    if Covers(p, val) {
      var k: nat := (val - p.start) / p.step;
      assert val == Term(p, k);
    }
    if Member(p, val) {
      var k: nat :| val == Term(p, k) && val <= p.end;
      MultipleDivides(k, p.step);
      assert val - p.start == k * p.step;
    }
  }

  lemma {:induction false} MultipleDivides(k: nat, step: int)
    requires step > 0
    ensures k * step >= 0 && (k * step) % step == 0
  {
    if k > 0 {
      MultipleDivides(k - 1, step);
      assert k * step == (k - 1) * step + step;
      AddStep((k - 1) * step, step);
    }
  }

  lemma AddStep(x: int, step: int)
    requires step > 0 && x % step == 0
    ensures (x + step) % step == 0
  {
    assert x == step * (x / step);
    assert x + step == step * (x / step + 1);
    ModOfMultiple(x / step + 1, step);
  }

  lemma ModOfMultiple(q: int, step: int)
    requires step > 0
    ensures (step * q) % step == 0
  {
    var x := step * q;
    var d, r := x / step, x % step;
    assert x == step * d + r;
    assert step * (q - d) == r;
    FarFromZero(step, q - d);
  }

  lemma FarFromZero(step: int, e: int)
    requires step > 0
    ensures e >= 1 ==> step * e >= step
    ensures e <= -1 ==> step * e <= -step
  {
  }

  /** Matching a field: the parts in turn, until one covers the value or cannot be read. */
  predicate FieldMatches(parts: seq<string>, val: int, lo: int, hi: int) {
    if parts == [] then false
    else
      var m := Meaning(parts[0], lo, hi);
      m.Some? && (Covers(m.value, val) || FieldMatches(parts[1..], val, lo, hi))
  }

  lemma MeaningHasStep(part: string, lo: int, hi: int)
    requires Meaning(part, lo, hi).Some?
    ensures Meaning(part, lo, hi).value.step > 0
  {
  }

  ghost predicate PartHas(part: string, val: int, lo: int, hi: int) {
    Meaning(part, lo, hi).Some? && Member(Meaning(part, lo, hi).value, val)
  }

  /** For any field whatsoever: it matches exactly if some part has the value and neither that part nor
      one before it is unreadable or has a step that is not positive. */
  lemma {:induction false} MatchesExactly(parts: seq<string>, val: int, lo: int, hi: int)
    ensures FieldMatches(parts, val, lo, hi) <==>
      exists i :: 0 <= i < |parts| && PartHas(parts[i], val, lo, hi) && forall j :: 0 <= j < i ==> Meaning(parts[j], lo, hi).Some?
  {
    hide Meaning, Member, Covers;
    if parts != [] {
      MatchesExactly(parts[1..], val, lo, hi);
      if Meaning(parts[0], lo, hi).Some? {
        MeaningHasStep(parts[0], lo, hi);
        CoversIsMember(Meaning(parts[0], lo, hi).value, val);
      }
      var rest := parts[1..];
      if i :| 0 <= i < |rest| && PartHas(rest[i], val, lo, hi) && forall j :: 0 <= j < i ==> Meaning(rest[j], lo, hi).Some? {
        if Meaning(parts[0], lo, hi).Some? {
          assert PartHas(parts[i + 1], val, lo, hi);
          forall j | 0 <= j < i + 1 ensures Meaning(parts[j], lo, hi).Some? {
            if j > 0 { assert Meaning(rest[j - 1], lo, hi).Some?; }
          }
        }
      }
      if i :| 0 <= i < |parts| && PartHas(parts[i], val, lo, hi) && forall j :: 0 <= j < i ==> Meaning(parts[j], lo, hi).Some? {
        if i > 0 {
          assert PartHas(rest[i - 1], val, lo, hi);
          assert Meaning(parts[0], lo, hi).Some?;
        }
      }
    }
  }

  // ----- what may be saved -----

  /** The save-time check of one part. */
  predicate ValidPart(part: string, lo: int, hi: int) {
    var base := Base(part);
    && StepOf(part).Some?
    && (base == "*" || base == "" || (
          if '-' in base then Range(base).Some? && lo <= Range(base).value.0 <= Range(base).value.1 <= hi
          else Atoi(base).Some? && lo <= Atoi(base).value <= hi))
  }

  predicate ValidParts(parts: seq<string>, lo: int, hi: int) {
    forall i :: 0 <= i < |parts| ==> ValidPart(parts[i], lo, hi)
  }

  predicate PositiveSteps(parts: seq<string>) {
    forall i :: 0 <= i < |parts| ==> StepOf(parts[i]).Some? && StepOf(parts[i]).value > 0
  }

  /** A part that may be saved can be matched exactly when its step is positive, and then stays within the
      field's bounds. */
  lemma ValidMeans(part: string, lo: int, hi: int)
    requires ValidPart(part, lo, hi)
    ensures Meaning(part, lo, hi).Some? <==> StepOf(part).value > 0
    ensures Meaning(part, lo, hi).Some? ==> forall val :: Member(Meaning(part, lo, hi).value, val) ==> lo <= val <= hi
  {
    var m := Meaning(part, lo, hi);
    if m.Some? {
      forall val | Member(m.value, val) ensures lo <= val <= hi {
        CoversIsMember(m.value, val);
      }
    }
  }

  /** For every field that may be saved and whose steps are positive: it matches the union of its parts'
      progressions. */
  lemma MatchesUnion(parts: seq<string>, val: int, lo: int, hi: int)
    requires ValidParts(parts, lo, hi) && PositiveSteps(parts)
    ensures FieldMatches(parts, val, lo, hi) <==> exists p :: p in parts && PartHas(p, val, lo, hi)
  {
    hide ValidPart, StepOf, Meaning, FieldMatches, PartHas;
    MatchesExactly(parts, val, lo, hi);
    forall i | 0 <= i < |parts| ensures Meaning(parts[i], lo, hi).Some? {
      PartIsValid(parts, i, lo, hi);
      ValidMeans(parts[i], lo, hi);
    }
    if p :| p in parts && PartHas(p, val, lo, hi) {
      var i :| 0 <= i < |parts| && parts[i] == p;
      assert PartHas(parts[i], val, lo, hi);
    }
    if i :| 0 <= i < |parts| && PartHas(parts[i], val, lo, hi) && forall j :: 0 <= j < i ==> Meaning(parts[j], lo, hi).Some? {
      assert parts[i] in parts;
    }
  }

  lemma PartIsValid(parts: seq<string>, i: nat, lo: int, hi: int)
    requires ValidParts(parts, lo, hi) && PositiveSteps(parts) && i < |parts|
    ensures ValidPart(parts[i], lo, hi) && StepOf(parts[i]).Some? && StepOf(parts[i]).value > 0
  {
  }

  /** Hence neither the order of the parts nor their repetition matters. */
  lemma OrderDoesNotMatter(parts: seq<string>, other: seq<string>, val: int, lo: int, hi: int)
    requires ValidParts(parts, lo, hi) && PositiveSteps(parts)
    requires forall p :: p in parts <==> p in other
    ensures FieldMatches(parts, val, lo, hi) <==> FieldMatches(other, val, lo, hi)
  {
    hide ValidPart, StepOf, Meaning, FieldMatches, PartHas;
    forall i | 0 <= i < |other| ensures ValidPart(other[i], lo, hi) && StepOf(other[i]).Some? && StepOf(other[i]).value > 0 {
      assert other[i] in parts;
      var j :| 0 <= j < |parts| && parts[j] == other[i];
      PartIsValid(parts, j, lo, hi);
    }
    MatchesUnion(parts, val, lo, hi);
    MatchesUnion(other, val, lo, hi);
  }

  // ----- when the order does matter -----

  predicate NoPositiveStep(parts: seq<string>) {
    forall i :: 0 <= i < |parts| ==> StepOf(parts[i]).Some? && StepOf(parts[i]).value <= 0
  }

  ghost predicate SameParts(parts: seq<string>, other: seq<string>) {
    forall p :: p in parts <==> p in other
  }

  /** Whatever order the parts are written in, and however often, the field matches the same values. */
  ghost predicate OrderFree(parts: seq<string>, lo: int, hi: int) {
    forall other, val {:trigger SameParts(parts, other), FieldMatches(other, val, lo, hi)} ::
      SameParts(parts, other) ==> (FieldMatches(parts, val, lo, hi) <==> FieldMatches(other, val, lo, hi))
  }

  /** A part with a positive step matches its own start. */
  lemma MatchesOwnStart(part: string, lo: int, hi: int)
    requires ValidPart(part, lo, hi) && StepOf(part).value > 0 && lo <= hi
    ensures Meaning(part, lo, hi).Some? && Meaning(part, lo, hi).value.step > 0
    ensures Covers(Meaning(part, lo, hi).value, Meaning(part, lo, hi).value.start)
  {
  }

  lemma FirstDecides(part: string, parts: seq<string>, val: int, lo: int, hi: int)
    ensures FieldMatches([part] + parts, val, lo, hi) <==>
      Meaning(part, lo, hi).Some? && (Covers(Meaning(part, lo, hi).value, val) || FieldMatches(parts, val, lo, hi))
  {
    hide Meaning, Covers;
    assert ([part] + parts)[1..] == parts;
  }

  /** One part of each kind is enough: written first, the one makes the field match its start, the other
      hides everything. */
  lemma MixedStepsDepend(parts: seq<string>, lo: int, hi: int, i: nat, j: nat)
    requires ValidParts(parts, lo, hi) && lo <= hi && i < |parts| && j < |parts|
    requires StepOf(parts[i]).Some? && StepOf(parts[i]).value > 0 && StepOf(parts[j]).Some? && StepOf(parts[j]).value <= 0
    ensures !OrderFree(parts, lo, hi)
  {
    hide FieldMatches, StepOf, Meaning, Covers, ValidPart;
    assert ValidPart(parts[i], lo, hi) && ValidPart(parts[j], lo, hi);
    MatchesOwnStart(parts[i], lo, hi);
    ValidMeans(parts[j], lo, hi);
    var val := Meaning(parts[i], lo, hi).value.start;
    var a, b := [parts[i]] + parts, [parts[j]] + parts;
    FirstDecides(parts[i], parts, val, lo, hi);
    FirstDecides(parts[j], parts, val, lo, hi);
    assert SameParts(parts, a) && SameParts(parts, b);
    assert FieldMatches(a, val, lo, hi) && !FieldMatches(b, val, lo, hi);
  }

  /** Fields without a positive step match nothing, in any order. */
  lemma NoPositiveMatchesNothing(parts: seq<string>, val: int, lo: int, hi: int)
    requires ValidParts(parts, lo, hi) && NoPositiveStep(parts)
    ensures !FieldMatches(parts, val, lo, hi)
  {
    hide ValidPart, StepOf, Meaning, Covers;
    if parts != [] {
      assert ValidPart(parts[0], lo, hi);
      ValidMeans(parts[0], lo, hi);
    }
  }

  lemma NoPositiveInAnyOrder(parts: seq<string>, other: seq<string>, lo: int, hi: int)
    requires ValidParts(parts, lo, hi) && NoPositiveStep(parts) && SameParts(parts, other)
    ensures ValidParts(other, lo, hi) && NoPositiveStep(other)
  {
    hide ValidPart, StepOf;
    forall i | 0 <= i < |other| ensures ValidPart(other[i], lo, hi) && StepOf(other[i]).Some? && StepOf(other[i]).value <= 0 {
      assert other[i] in parts;
    }
  }

  /** For every field that may be saved: the order and repetition of its parts do not matter if and only
      if its steps are all positive, or none is. */
  lemma OrderFreeExactly(parts: seq<string>, lo: int, hi: int)
    requires ValidParts(parts, lo, hi) && lo <= hi
    ensures OrderFree(parts, lo, hi) <==> PositiveSteps(parts) || NoPositiveStep(parts)
  {
    hide FieldMatches, ValidPart, StepOf;
    if PositiveSteps(parts) {
      forall other, val | SameParts(parts, other) ensures FieldMatches(parts, val, lo, hi) <==> FieldMatches(other, val, lo, hi) {
        OrderDoesNotMatter(parts, other, val, lo, hi);
      }
    } else if NoPositiveStep(parts) {
      forall other, val | SameParts(parts, other) ensures FieldMatches(parts, val, lo, hi) <==> FieldMatches(other, val, lo, hi) {
        NoPositiveInAnyOrder(parts, other, lo, hi);
        NoPositiveMatchesNothing(parts, val, lo, hi);
        NoPositiveMatchesNothing(other, val, lo, hi);
      }
    } else {
      StepsAreNumbers(parts, lo, hi);
      var i :| 0 <= i < |parts| && StepOf(parts[i]).value > 0;
      var j :| 0 <= j < |parts| && StepOf(parts[j]).value <= 0;
      MixedStepsDepend(parts, lo, hi, i, j);
    }
  }

  lemma StepsAreNumbers(parts: seq<string>, lo: int, hi: int)
    requires ValidParts(parts, lo, hi)
    ensures forall i :: 0 <= i < |parts| ==> StepOf(parts[i]).Some?
  {
    hide StepOf;
    forall i | 0 <= i < |parts| ensures StepOf(parts[i]).Some? {
      assert ValidPart(parts[i], lo, hi);
    }
  }

  /** For example a zero step, which may be saved, hides the parts after it but not those before. */
  lemma ZeroStepMatters()
    ensures ValidParts(["5", "*/0"], 0, 59) && ValidParts(["*/0", "5"], 0, 59)
    ensures FieldMatches(["5", "*/0"], 5, 0, 59) && !FieldMatches(["*/0", "5"], 5, 0, 59)
  {
    var five, zero := "5", "*/0";
    assert Decimal("5") == 5 by { assert "5"[..0] == ""; }
    assert Decimal("0") == 0 by { assert "0"[..0] == ""; }
    assert Index(five, '/') == 1 && Index(five, '-') == 1;
    assert five[..1] == five;
    assert Index(zero, '/') == 1 by { assert zero[1..][0] == '/'; }
    assert zero[..1] == "*" && zero[2..] == "0";
    assert [zero, five][0] == zero && [five, zero][0] == five;
  }

  // ----- a bare value with a step -----

  predicate BareValue(part: string) {
    var base := Base(part);
    base != "*" && base != "" && '-' !in base
  }

  /** The comment in the source promises that a value n with a step k matches n, n + k, n + 2k and so on.
      That is so if and only if k is not 1, or n is the last value of the field anyway. */
  lemma BareStepExactly(part: string, lo: int, hi: int)
    requires ValidPart(part, lo, hi) && BareValue(part) && StepOf(part).value > 0
    ensures var n, k := Atoi(Base(part)).value, StepOf(part).value;
      (forall val :: PartHas(part, val, lo, hi) <==> Member(Progression(n, hi, k), val)) <==> k != 1 || n == hi
  {
    var n, k := Atoi(Base(part)).value, StepOf(part).value;
    var promised, actual := Progression(n, hi, k), Meaning(part, lo, hi).value;
    assert lo <= n <= hi;
    hide Atoi, Base, StepOf, Meaning, Member;
    forall val ensures PartHas(part, val, lo, hi) <==> Member(actual, val) {
    }
    if k == 1 {
      forall val ensures Member(actual, val) <==> val == n {
        CoversIsMember(actual, val);
      }
      forall val ensures Member(promised, val) <==> n <= val <= hi {
        CoversIsMember(promised, val);
      }
      if n < hi {
        assert !PartHas(part, hi, lo, hi) && Member(promised, hi);
      }
    }
  }

  /** So `5/1` does not match 6. */
  lemma FiveSlashOne()
    ensures ValidPart("5/1", 0, 59) && BareValue("5/1") && StepOf("5/1") == Some(1) && Atoi(Base("5/1")) == Some(5)
    ensures FieldMatches(["5/1"], 5, 0, 59) && !FieldMatches(["5/1"], 6, 0, 59)
  {
    var part := "5/1";
    assert Decimal("5") == 5 by { assert "5"[..0] == ""; }
    assert Decimal("1") == 1 by { assert "1"[..0] == ""; }
    assert Index(part, '/') == 1 by { assert part[1..][0] == '/'; }
    assert part[..1] == "5" && part[2..] == "1";
    var parts := [part];
    assert parts[0] == part;
    assert parts[1..] == [];
  }

  // ----- the loops -----

  /** `cronFieldMatch` */
  method FieldMatch(field: string, val: int, lo: int, hi: int) returns (matched: bool)
    ensures matched == FieldMatches(Split(field, ','), val, lo, hi)
  {
    hide Split, Atoi, Index;
    var parts := Split(field, ',');
    var n := 0;
    while n < |parts|
      invariant 0 <= n <= |parts|
      invariant FieldMatches(parts, val, lo, hi) == FieldMatches(parts[n..], val, lo, hi)
    {
      var part := parts[n];
      assert parts[n..][1..] == parts[n + 1..];
      n := n + 1;
      var step := 1;
      var i := Index(part, '/');
      if i < |part| {
        var s := Atoi(part[i + 1..]);
        if s.None? || s.value <= 0 {
          return false;
        }
        step := s.value;
      }
      var base := part[..i];
      var start, end := lo, hi;
      if base == "*" || base == "" {
      } else if '-' in base {
        var r := Range(base);
        if r.None? {
          return false;
        }
        start, end := r.value.0, r.value.1;
      } else {
        var v := Atoi(base);
        if v.None? {
          return false;
        }
        if step == 1 {
          if v.value == val {
            return true;
          }
          continue;
        }
        start := v.value;
      }
      if val >= start && val <= end && (val - start) % step == 0 {
        return true;
      }
    }
    return false;
  }
}
