/** Cron expressions as people write them: what each form of a part means, and when it may be saved. */
module CronWritten {
  import opened Exceptions
  import opened Strings
  import opened CronFields
  import opened CronSchedule

  // ----- numbers in decimal -----

  function Show(n: nat): (s: string)
    ensures s != ""
  {
    if n < 10 then [('0' as int + n) as char] else Show(n / 10) + [('0' as int + n % 10) as char]
  }

  lemma {:induction false} ShowDigits(n: nat)
    ensures AllDigits(Show(n)) && Decimal(Show(n)) == n
    decreases n
  {
    var s := Show(n);
    if n < 10 {
      assert s[..0] == "";
    } else {
      ShowDigits(n / 10);
      assert s[..|s| - 1] == Show(n / 10);
    }
  }

  /** A number in decimal is read back, with either sign or none, if it fits 64 bits. */
  lemma AtoiWritten(n: nat)
    requires n <= 0x7fff_ffff_ffff_ffff
    ensures Atoi(Show(n)) == Some(n) && Atoi("+" + Show(n)) == Some(n) && Atoi("-" + Show(n)) == Some(-(n as int))
  {
    ShowDigits(n);
    hide Show, Decimal;
    assert ("+" + Show(n))[1..] == Show(n) && ("-" + Show(n))[1..] == Show(n);
    assert '0' <= Show(n)[0] <= '9';
  }

  lemma AtoiLiterals()
    ensures Atoi("0") == Some(0) && Atoi("59") == Some(59) && Atoi("-7") == Some(-7) && Atoi("") == None && Atoi("5x") == None
  {
    assert Show(0) == "0" && Show(7) == "7";
    assert Show(5) == "5";
    assert Show(59) == Show(5) + "9" == "59";
    AtoiWritten(0);
    AtoiWritten(59);
    AtoiWritten(7);
    assert "-" + "7" == "-7";
    assert "5x"[1] == 'x';
  }

  lemma ShowPlain(n: nat, c: char)
    requires c < '0'
    ensures c !in Show(n)
  {
    ShowDigits(n);
    hide Show, Decimal;
  }

  // ----- parts -----

  /** Base and step of a part written with a step. */
  lemma WithStep(base: string, k: nat)
    requires '/' !in base && k <= 0x7fff_ffff_ffff_ffff
    ensures Base(base + "/" + Show(k)) == base && StepOf(base + "/" + Show(k)) == Some(k)
  {
    hide Atoi, Show;
    var part := base + "/" + Show(k);
    IndexIs(base, Show(k), '/');
    assert part == base + ['/'] + Show(k);
    assert part[..|base|] == base && part[|base| + 1..] == Show(k);
    AtoiWritten(k);
  }

  lemma WithoutStep(base: string)
    requires '/' !in base
    ensures Base(base) == base && StepOf(base) == Some(1)
  {
    assert Index(base, '/') == |base|;
    assert base[..|base|] == base;
  }

  lemma RangeWritten(a: nat, b: nat)
    requires a <= 0x7fff_ffff_ffff_ffff && b <= 0x7fff_ffff_ffff_ffff
    ensures var base := Show(a) + "-" + Show(b);
      Range(base) == Some((a as int, b as int)) && '-' in base && '/' !in base && base != "*" && base != ""
  {
    hide Atoi, Show;
    var base := Show(a) + "-" + Show(b);
    ShowPlain(a, '-');
    ShowPlain(a, '/');
    ShowPlain(b, '/');
    IndexIs(Show(a), Show(b), '-');
    assert base == Show(a) + ['-'] + Show(b);
    assert base[..|Show(a)|] == Show(a) && base[|Show(a)| + 1..] == Show(b);
    AtoiWritten(a);
    AtoiWritten(b);
    assert base[|Show(a)|] == '-';
  }

  lemma NumberWritten(a: nat)
    requires a <= 0x7fff_ffff_ffff_ffff
    ensures var base := Show(a); Atoi(base) == Some(a) && '-' !in base && '/' !in base && base != "*" && base != ""
  {
    ShowPlain(a, '-');
    ShowPlain(a, '/');
    ShowPlain(a, '*');
    AtoiWritten(a);
    hide Show, Atoi;
  }

  lemma StarWritten()
    ensures '/' !in "*" && '-' !in "*"
  {
  }

  lemma HasByRemainder(part: string, val: int, lo: int, hi: int)
    ensures PartHas(part, val, lo, hi) <==> Meaning(part, lo, hi).Some? && var p := Meaning(part, lo, hi).value;
      p.step > 0 && p.start <= val <= p.end && (val - p.start) % p.step == 0
  {
    if Meaning(part, lo, hi).Some? {
      MeaningHasStep(part, lo, hi);
      CoversIsMember(Meaning(part, lo, hi).value, val);
    }
  }

  /** `*` has every value of the field, and a step takes every k-th of them; both may always be saved. */
  lemma StarMeans(k: nat, val: int, lo: int, hi: int)
    requires k <= 0x7fff_ffff_ffff_ffff
    ensures PartHas("*", val, lo, hi) <==> lo <= val <= hi
    ensures PartHas("*/" + Show(k), val, lo, hi) <==> k > 0 && lo <= val <= hi && (val - lo) % k == 0
    ensures ValidPart("*", lo, hi) && ValidPart("*/" + Show(k), lo, hi)
  {
    var star := "*";
    StarWritten();
    WithoutStep(star);
    WithStep(star, k);
    assert star + "/" + Show(k) == "*/" + Show(k);
    hide Show, StepOf, Base, PartHas, Atoi;
    HasByRemainder(star, val, lo, hi);
    HasByRemainder("*/" + Show(k), val, lo, hi);
  }

  /** A value has itself. With a step k it has every k-th value from itself to the end of the field, except
      that the step 1 changes nothing. It may be saved if it lies in the field. */
  lemma ValueMeans(a: nat, k: nat, val: int, lo: int, hi: int)
    requires a <= 0x7fff_ffff_ffff_ffff && k <= 0x7fff_ffff_ffff_ffff
    ensures PartHas(Show(a), val, lo, hi) <==> val == a
    ensures PartHas(Show(a) + "/" + Show(k), val, lo, hi) <==>
      k > 0 && if k == 1 then val == a else a <= val <= hi && (val - a) % k == 0
    ensures ValidPart(Show(a), lo, hi) <==> lo <= a <= hi
    ensures ValidPart(Show(a) + "/" + Show(k), lo, hi) <==> lo <= a <= hi
  {
    var base := Show(a);
    NumberWritten(a);
    WithoutStep(base);
    WithStep(base, k);
    hide Show, StepOf, Base, PartHas, Atoi, Range;
    HasByRemainder(base, val, lo, hi);
    HasByRemainder(base + "/" + Show(k), val, lo, hi);
  }

  /** A range has both its ends and what is between them, and with a step every k-th value from its start on.
      It may be saved if it lies in the field and does not run backwards. */
  lemma RangeMeans(a: nat, b: nat, k: nat, val: int, lo: int, hi: int)
    requires a <= 0x7fff_ffff_ffff_ffff && b <= 0x7fff_ffff_ffff_ffff && k <= 0x7fff_ffff_ffff_ffff
    ensures PartHas(Show(a) + "-" + Show(b), val, lo, hi) <==> a <= val <= b
    ensures PartHas(Show(a) + "-" + Show(b) + "/" + Show(k), val, lo, hi) <==> k > 0 && a <= val <= b && (val - a) % k == 0
    ensures ValidPart(Show(a) + "-" + Show(b), lo, hi) <==> lo <= a <= b <= hi
    ensures ValidPart(Show(a) + "-" + Show(b) + "/" + Show(k), lo, hi) <==> lo <= a <= b <= hi
  {
    var base := Show(a) + "-" + Show(b);
    RangeWritten(a, b);
    WithoutStep(base);
    WithStep(base, k);
    hide *;
    RangePart(base, a, b, 1, val, lo, hi);
    RangePart(base + "/" + Show(k), a, b, k, val, lo, hi);
  }

  lemma RangePart(part: string, a: nat, b: nat, k: nat, val: int, lo: int, hi: int)
    requires Range(Base(part)) == Some((a as int, b as int)) && '-' in Base(part) && Base(part) != "*" && Base(part) != ""
    requires StepOf(part) == Some(k)
    ensures PartHas(part, val, lo, hi) <==> k > 0 && a <= val <= b && (val - a) % k == 0
    ensures ValidPart(part, lo, hi) <==> lo <= a <= b <= hi
  {
    hide Range, Base, StepOf, PartHas;
    HasByRemainder(part, val, lo, hi);
  }

  // ----- lists and words -----

  /** Parts joined by commas are split into just these parts. */
  lemma {:induction false} SplitOfJoin(parts: seq<string>, sep: char)
    requires parts != [] && forall i :: 0 <= i < |parts| ==> sep !in parts[i]
    ensures Split(Join(parts, sep), sep) == parts
  {
    var s := Join(parts, sep);
    if |parts| == 1 {
      assert Index(s, sep) == |s|;
    } else {
      SplitOfJoin(parts[1..], sep);
      var rest := Join(parts[1..], sep);
      IndexIs(parts[0], rest, sep);
      assert s == parts[0] + [sep] + rest;
      assert s[..|parts[0]|] == parts[0] && s[|parts[0]| + 1..] == rest;
    }
  }

  ghost predicate Word(w: string) {
    w != "" && forall i :: 0 <= i < |w| ==> !IsSpace(w[i])
  }

  /** Words with one space between each two of them. */
  function Spaced(words: seq<string>): string {
    if words == [] then "" else if |words| == 1 then words[0] else words[0] + " " + Spaced(words[1..])
  }

  lemma {:induction false} WordLengthIs(w: string, rest: string)
    requires (forall i :: 0 <= i < |w| ==> !IsSpace(w[i])) && (rest == "" || IsSpace(rest[0]))
    ensures WordLength(w + rest) == |w|
  {
    if w != "" {
      WordLengthIs(w[1..], rest);
      assert (w + rest)[1..] == w[1..] + rest;
    } else {
      assert w + rest == rest;
    }
  }

  lemma FieldsWord(w: string, rest: string)
    requires Word(w) && (rest == "" || IsSpace(rest[0]))
    ensures Fields(w + rest) == [w] + Fields(rest)
  {
    hide IsSpace;
    var s := w + rest;
    WordLengthIs(w, rest);
    assert s[0] == w[0];
    assert TrimLeft(s) == s;
    assert s[..|w|] == w && s[|w|..] == rest;
  }

  lemma FieldsSpace(rest: string)
    ensures Fields(" " + rest) == Fields(rest)
  {
    var s := " " + rest;
    assert IsSpace(s[0]) && s[1..] == rest;
    assert TrimLeft(s) == TrimLeft(rest);
    hide IsSpace, WordLength;
  }

  /** Words separated by spaces are the fields, whatever the words. */
  lemma {:induction false} FieldsWritten(words: seq<string>)
    requires forall i :: 0 <= i < |words| ==> Word(words[i])
    ensures Fields(Spaced(words)) == words
  {
    hide Fields, Word, IsSpace;
    if words == [] {
      NoFields();
    } else if |words| == 1 {
      FieldsWord(words[0], "");
      NoFields();
      assert words[0] + "" == words[0];
    } else {
      FieldsWritten(words[1..]);
      var rest := " " + Spaced(words[1..]);
      SpaceIsSpace();
      FieldsWord(words[0], rest);
      FieldsSpace(Spaced(words[1..]));
      assert words[0] + rest == Spaced(words);
      assert words == [words[0]] + words[1..];
    }
  }

  lemma NoFields()
    ensures Fields("") == []
  {
  }

  lemma SpaceIsSpace()
    ensures IsSpace(' ')
  {
  }

  /** A whole expression in writing: five lists of parts with spaces between them. It may be saved if every
      part may be in its field, and with positive steps it matches a minute if minute, hour and month are each
      in one of their parts, and the day of the month or of the week - both, where either is `*` - is. */
  lemma ExpressionWritten(lists: seq<seq<string>>, t: Clock)
    requires |lists| == 5 && OnCalendar(t)
    requires forall i :: 0 <= i < 5 ==> lists[i] != [] && forall j :: 0 <= j < |lists[i]| ==> ',' !in lists[i][j]
    requires forall i :: 0 <= i < 5 ==> Word(Join(lists[i], ','))
    ensures var expr := Spaced([Join(lists[0], ','), Join(lists[1], ','), Join(lists[2], ','), Join(lists[3], ','), Join(lists[4], ',')]);
      && (ExprValid(expr) <==>
            && ValidParts(lists[0], 0, 59) && ValidParts(lists[1], 0, 23) && ValidParts(lists[2], 1, 31)
            && ValidParts(lists[3], 1, 12) && ValidParts(lists[4], 0, 6))
      && (ExprValid(expr) && (forall i :: 0 <= i < 5 ==> PositiveSteps(lists[i])) ==> (Matches(expr, t) <==>
            var day, week := InSome(lists[2], t.day, 1, 31), InSome(lists[4], t.weekday, 0, 6);
            && InSome(lists[0], t.minute, 0, 59) && InSome(lists[1], t.hour, 0, 23) && InSome(lists[3], t.month, 1, 12)
            && (if Join(lists[2], ',') == "*" || Join(lists[4], ',') == "*" then day && week else day || week)))
  {
    var words := [Join(lists[0], ','), Join(lists[1], ','), Join(lists[2], ','), Join(lists[3], ','), Join(lists[4], ',')];
    forall i | 0 <= i < 5 ensures Split(words[i], ',') == lists[i] && Word(words[i]) {
      assert words[i] == Join(lists[i], ',');
      SplitOfJoin(lists[i], ',');
    }
    FieldsWritten(words);
    hide Split, Join, Word, ValidParts, PositiveSteps, FieldMatches, PartHas, Spaced, Fields, OnCalendar;
    var expr := Spaced(words);
    ExprValidMeans(expr);
    if ExprValid(expr) && (forall i :: 0 <= i < 5 ==> PositiveSteps(lists[i])) {
      MatchesFields(lists, expr, t);
    }
  }

  /** The value is in one of the parts. */
  ghost predicate InSome(parts: seq<string>, val: int, lo: int, hi: int) {
    exists p :: p in parts && PartHas(p, val, lo, hi)
  }

  lemma MatchesFields(lists: seq<seq<string>>, expr: string, t: Clock)
    requires |lists| == 5 && OnCalendar(t) && ExprValid(expr)
    requires forall i :: 0 <= i < 5 ==> Split(Fields(expr)[i], ',') == lists[i] && PositiveSteps(lists[i])
    ensures var day, week := InSome(lists[2], t.day, 1, 31), InSome(lists[4], t.weekday, 0, 6);
      var f := Fields(expr);
      Matches(expr, t) <==>
        && InSome(lists[0], t.minute, 0, 59) && InSome(lists[1], t.hour, 0, 23) && InSome(lists[3], t.month, 1, 12)
        && (if f[2] == "*" || f[4] == "*" then day && week else day || week)
  {
    ExprValidMeans(expr);
    hide Split, PositiveSteps, PartHas, Fields, ValidParts, FieldMatches, ExprValid;
    MatchesUnion(lists[0], t.minute, 0, 59);
    MatchesUnion(lists[1], t.hour, 0, 23);
    MatchesUnion(lists[2], t.day, 1, 31);
    MatchesUnion(lists[3], t.month, 1, 12);
    MatchesUnion(lists[4], t.weekday, 0, 6);
  }
}
