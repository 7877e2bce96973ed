/** The page and limit arithmetic shared by the audit-log browser and the
    flag browser (`browse_logs` and `browse_flags` in anitya/admin.py): the
    coercion of the `page` and `limit` query arguments, the row offset of a
    page, and the number of pages needed for a given count of rows. */
module Pagination {
  import opened Wrappers

  /** A query-string argument: missing (the handler then uses its default)
      or given as text. */
  datatype Param = Absent | Given(text: string)

  // ---------------------------------------------------------------------
  // Python's int() on text, restricted to ASCII
  // ---------------------------------------------------------------------

  /** The ASCII characters that int() strips around a number. */
  predicate IsSpace(c: char)
  {
    c == ' ' || 9 <= c as int <= 13 || 28 <= c as int <= 31
  }

  predicate IsDigit(c: char)
  {
    '0' <= c <= '9'
  }

  predicate AllDigits(s: string)
  {
    forall i :: 0 <= i < |s| ==> IsDigit(s[i])
  }

  function TrimStart(s: string): (r: string)
    ensures |r| <= |s| && r == s[|s| - |r|..]
    ensures r == [] || !IsSpace(r[0])
    ensures forall i :: 0 <= i < |s| - |r| ==> IsSpace(s[i])
  {
    if s != [] && IsSpace(s[0]) then
      var r := TrimStart(s[1..]);
      assert s[1..][|s| - 1 - |r|..] == s[|s| - |r|..];
      assert forall i :: 1 <= i < |s| - |r| ==> s[i] == s[1..][i - 1];
      r
    else s
  }

  function TrimEnd(s: string): (r: string)
    ensures |r| <= |s| && r == s[..|r|]
    ensures r == [] || !IsSpace(r[|r| - 1])
    ensures forall i :: |r| <= i < |s| ==> IsSpace(s[i])
  {
    if s != [] && IsSpace(s[|s| - 1]) then
      var r := TrimEnd(s[..|s| - 1]);
      assert s[..|s| - 1][..|r|] == s[..|r|];
      assert forall i :: |r| <= i < |s| - 1 ==> s[i] == s[..|s| - 1][i];
      r
    else s
  }

  /** The value of a run of decimal digits, most significant first. */
  function DigitsValue(s: string): nat
    requires AllDigits(s)
  {
    if s == [] then 0
    else DigitsValue(s[..|s| - 1]) * 10 + (s[|s| - 1] as int - '0' as int)
  }

  /** int(s) for a text argument: surrounding white space, an optional sign
      and at least one decimal digit; anything else is a ValueError (None). */
  function ParseInt(s: string): Option<int>
  {
    ParseSigned(TrimEnd(TrimStart(s)))
  }

  /** An optional sign followed by at least one decimal digit. */
  function ParseSigned(t: string): Option<int>
  {
    var negative := |t| > 0 && t[0] == '-';
    var body := if |t| > 0 && (t[0] == '-' || t[0] == '+') then t[1..] else t;
    if body != [] && AllDigits(body) then
      var magnitude: int := DigitsValue(body);
      Some(if negative then -magnitude else magnitude)
    else None
  }

  /** The canonical decimal text of a natural number. */
  function Decimal(n: nat): (s: string)
    ensures |s| > 0 && AllDigits(s)
  {
    if n < 10 then ['0' + n as char]
    else Decimal(n / 10) + ['0' + (n % 10) as char]
  }

  /** The text str(n) that Python gives an integer. */
  function Show(n: int): string
  {
    if n < 0 then "-" + Decimal(-n) else Decimal(n)
  }

  lemma {:induction false} DecimalValue(n: nat)
    ensures DigitsValue(Decimal(n)) == n
  {
    if n >= 10 {
      var s := Decimal(n);
      DecimalValue(n / 10);
      assert s[..|s| - 1] == Decimal(n / 10);
    }
  }

  /** int(str(n)) == n: every integer the handlers could be given in its
      canonical form is read back as itself. */
  lemma ParseShow(n: int)
    ensures ParseInt(Show(n)) == Some(n)
  {
    var s := Show(n);
    var d := Decimal(if n < 0 then -n else n);
    DecimalValue(if n < 0 then -n else n);
    assert s[0] == '-' || IsDigit(s[0]);
    assert !IsSpace(s[|s| - 1]);
    assert TrimStart(s) == s;
    assert TrimEnd(s) == s;
    if n < 0 {
      assert s[1..] == d;
    }
  }

  predicate AllSpace(w: string)
  {
    forall i :: 0 <= i < |w| ==> IsSpace(w[i])
  }

  lemma {:induction false} TrimStartSkips(w: string, s: string)
    requires AllSpace(w)
    ensures TrimStart(w + s) == TrimStart(s)
  {
    if w != [] {
      assert (w + s)[0] == w[0] && IsSpace(w[0]);
      assert (w + s)[1..] == w[1..] + s;
      assert TrimStart(w + s) == TrimStart(w[1..] + s);
      TrimStartSkips(w[1..], s);
    } else {
      assert w + s == s;
    }
  }

  lemma {:induction false} TrimEndSkips(s: string, w: string)
    requires AllSpace(w)
    ensures TrimEnd(s + w) == TrimEnd(s)
  {
    if w != [] {
      assert (s + w)[|s + w| - 1] == w[|w| - 1] && IsSpace(w[|w| - 1]);
      assert (s + w)[..|s + w| - 1] == s + w[..|w| - 1];
      assert TrimEnd(s + w) == TrimEnd(s + w[..|w| - 1]);
      TrimEndSkips(s, w[..|w| - 1]);
    } else {
      assert s + w == s;
    }
  }

  lemma ShowEnds(n: int)
    ensures |Show(n)| > 0 && !IsSpace(Show(n)[0]) && !IsSpace(Show(n)[|Show(n)| - 1])
  {
    var s := Show(n);
    assert s[0] == '-' || IsDigit(s[0]);
    assert IsDigit(s[|s| - 1]);
  }

  lemma TrimStartStops(s: string)
    requires |s| > 0 && !IsSpace(s[0])
    ensures TrimStart(s) == s
  {
  }

  lemma TrimEndStops(s: string)
    requires |s| > 0 && !IsSpace(s[|s| - 1])
    ensures TrimEnd(s) == s
  {
  }

  lemma PaddingStart(w1: string, s: string, w2: string)
    requires AllSpace(w1)
    requires |s| > 0 && !IsSpace(s[0])
    ensures TrimStart(w1 + s + w2) == s + w2
  {
    var x := s + w2;
    assert w1 + s + w2 == w1 + x;
    TrimStartSkips(w1, x);
    assert x[0] == s[0];
    TrimStartStops(x);
  }

  lemma PaddingEnd(s: string, w2: string)
    requires AllSpace(w2)
    requires |s| > 0 && !IsSpace(s[|s| - 1])
    ensures TrimEnd(s + w2) == s
  {
    TrimEndSkips(s, w2);
    TrimEndStops(s);
  }

  /** White space around a text that neither starts nor ends with white
      space is exactly what int() strips. */
  lemma TrimPadding(w1: string, s: string, w2: string)
    requires AllSpace(w1) && AllSpace(w2)
    requires |s| > 0 && !IsSpace(s[0]) && !IsSpace(s[|s| - 1])
    ensures TrimEnd(TrimStart(w1 + s + w2)) == s
  {
    PaddingStart(w1, s, w2);
    PaddingEnd(s, w2);
  }

  /** int() reads str(n) back as n whatever white space surrounds it. */
  lemma ParseShowPadded(w1: string, n: int, w2: string)
    requires AllSpace(w1) && AllSpace(w2)
    ensures ParseInt(w1 + Show(n) + w2) == Some(n)
  {
    ShowEnds(n);
    ParseShow(n);
    TrimPadding(w1, Show(n), w2);
    TrimPadding([], Show(n), []);
    assert [] + Show(n) + [] == Show(n);
  }



  // ---------------------------------------------------------------------
  // Coercion of the query arguments
  // ---------------------------------------------------------------------

  /** `page`: 1 when missing; int(page) when that parses; 1 otherwise.
      A parsed page below 1 is kept as it is. */
  function CoercePage(p: Param): int
  {
    match p
    case Absent => 1
    case Given(s) => match ParseInt(s) { case Some(n) => n case None => 1 }
  }

  /** `limit`, read as the integer the text denotes: 50 when missing or
      when it does not parse. */
  function CoerceLimit(p: Param): int
  {
    match p
    case Absent => 50
    case Given(s) => match ParseInt(s) { case Some(n) => n case None => 50 }
  }

  /** The two arguments fall back to their defaults when missing or not
      an integer, and an integer argument is taken as the number it
      denotes. */
  lemma CoercionOfArguments(s: string, w1: string, n: int, w2: string)
    requires AllSpace(w1) && AllSpace(w2)
    ensures CoercePage(Absent) == 1 && CoerceLimit(Absent) == 50
    ensures ParseInt(s).None? ==> CoercePage(Given(s)) == 1 && CoerceLimit(Given(s)) == 50
    ensures CoercePage(Given(w1 + Show(n) + w2)) == n
    ensures CoerceLimit(Given(w1 + Show(n) + w2)) == n
  {
    ParseShowPadded(w1, n, w2);
  }

  /** The first row of `page` when pages hold `limit` rows; a zero limit
      means no slicing, so the offset stays 0. */
  function Offset(page: int, limit: int): int
  {
    if limit != 0 then (page - 1) * limit else 0
  }

  /** ceil(a / b) for a non-zero divisor, as Python's math.ceil gives it. */
  function CeilDiv(a: int, b: int): (r: int)
    requires b != 0
    ensures b > 0 ==> (r - 1) * b < a <= r * b
    ensures b < 0 ==> r * b <= a < (r - 1) * b
  {
    if b > 0 then CeilDivPos(a, b) else CeilDivPos(-a, -b)
  }

  function CeilDivPos(a: int, b: int): (r: int)
    requires b > 0
    ensures (r - 1) * b < a <= r * b
  {
    var q := (a + b - 1) / b;
    assert (a + b - 1) == q * b + (a + b - 1) % b;
    q
  }

  /** total_page = ceil(count / limit). */
  function TotalPages(count: nat, limit: int): (pages: int)
    requires limit != 0
    ensures limit > 0 ==> pages >= 0 && (pages - 1) * limit < count <= pages * limit
  {
    CeilDiv(count, limit)
  }

  /** What the browse handlers compute from the coerced page and limit and
      the number of matching rows; a zero limit makes the page count a
      division by zero. */
  datatype Paging =
    | Paging(page: int, limit: int, offset: int, totalPages: int)
    | DivisionByZero

  function Paginate(page: int, limit: int, count: nat): (r: Paging)
    ensures r.DivisionByZero? <==> limit == 0
    ensures r.Paging? ==> r.page == page && r.limit == limit
    ensures r.Paging? ==> r.offset == (page - 1) * limit
    ensures r.Paging? && limit > 0 ==>
      (r.totalPages - 1) * limit < count <= r.totalPages * limit
  {
    if limit == 0 then DivisionByZero
    else Paging(page, limit, Offset(page, limit), TotalPages(count, limit))
  }

  /** The whole computation from the two query arguments. */
  function Browse(pageArg: Param, limitArg: Param, count: nat): (r: Paging)
    ensures r.DivisionByZero? <==> CoerceLimit(limitArg) == 0
    ensures r.Paging? ==> r.page == CoercePage(pageArg) && r.limit == CoerceLimit(limitArg)
  {
    Paginate(CoercePage(pageArg), CoerceLimit(limitArg), count)
  }

  /** Without arguments the browsers show page 1 of 50-row pages from
      row 0; a limit of "0" is a division by zero whatever the page. */
  lemma BrowseDefaults(pageArg: Param, count: nat)
    ensures Browse(Absent, Absent, count) == Paging(1, 50, 0, TotalPages(count, 50))
    ensures Browse(pageArg, Given(Show(0)), count) == DivisionByZero
  {
    ParseShow(0);
  }

  lemma MulLeft(a: int, b: int, c: int)
    requires a <= b && c > 0
    ensures a * c <= b * c
  {
    assert b * c - a * c == (b - a) * c;
  }

  /** With a positive limit, every row index below the count falls on
      exactly one page from 1 to the page count: the page that starts at
      or before it and ends after it. */
  lemma PageOfRow(count: nat, limit: int, k: nat)
    requires limit > 0 && k < count
    ensures 1 <= k / limit + 1 <= TotalPages(count, limit)
    ensures Offset(k / limit + 1, limit) <= k < Offset(k / limit + 1, limit) + limit
    ensures forall p :: Offset(p, limit) <= k < Offset(p, limit) + limit ==> p == k / limit + 1
  {
    var q := k / limit;
    assert k == q * limit + k % limit;
    var n := TotalPages(count, limit);
    assert Offset(q + 1, limit) == q * limit;
    assert (q + 1) * limit == q * limit + limit;
    if q + 1 > n {
      MulLeft(n, q, limit);
      assert false;
    }
    forall p | Offset(p, limit) <= k < Offset(p, limit) + limit
      ensures p == q + 1
    {
      assert (p - 1) * limit <= k;
      assert k < (p - 1) * limit + limit;
      if p - 1 > q {
        MulLeft(q + 1, p - 1, limit);
        assert false;
      } else if p - 1 < q {
        MulLeft(p, q, limit);
        assert false;
      }
    }
  }

  /** "offset = (page - 1) * limit" for every page with a positive limit;
      a page below 1 is not coerced and gives a negative offset. */
  lemma OffsetOfPage(page: int, limit: int, count: nat)
    requires limit > 0
    ensures Paginate(page, limit, count).Paging?
    ensures Paginate(page, limit, count).offset == (page - 1) * limit
    ensures page < 1 ==> Paginate(page, limit, count).offset < 0
  {
    if page < 1 {
      MulLeft(page - 1, -1, limit);
    }
  }

  // ---------------------------------------------------------------------
  // The limit as the handlers actually leave it
  // ---------------------------------------------------------------------

  /** A Python value as the handlers hold it: an int or a str. */
  datatype PyValue = PyInt(i: int) | PyText(s: string)

  /** `limit` as browse_logs and browse_flags leave it: the result of
      int(limit) is discarded, so an argument that parses stays text and
      only the fallback is the integer 50. */
  function LimitAsWritten(p: Param): (limit: PyValue)
    ensures limit.PyText? <==> p.Given? && ParseInt(p.text).Some?
    ensures limit.PyText? ==> limit.s == p.text && ParseInt(limit.s) == Some(CoerceLimit(p))
    ensures limit.PyInt? ==> limit.i == CoerceLimit(p)
  {
    match p
    case Absent => PyInt(50)
    case Given(t) => if ParseInt(t).Some? then PyText(t) else PyInt(50)
  }

  /** Python's n * s for a str s: s repeated n times, empty when n <= 0. */
  function Repeat(s: string, n: int): string
    decreases n
  {
    if n <= 0 then [] else s + Repeat(s, n - 1)
  }

  /** The offset the handlers compute from that limit: a str never equals
      0, so the multiplication runs, and (page - 1) * text is text
      repetition rather than arithmetic. */
  function OffsetAsWritten(page: int, limit: PyValue): (offset: PyValue)
    ensures limit.PyInt? ==> offset == PyInt(Offset(page, limit.i))
    ensures limit.PyText? ==> offset.PyText? && offset.s == Repeat(limit.s, page - 1)
  {
    match limit
    case PyInt(l) => PyInt(Offset(page, l))
    case PyText(t) => PyText(Repeat(t, page - 1))
  }

  function Pow10(m: nat): (p: nat)
    ensures p >= 1 && (m >= 1 ==> p >= 10)
  {
    if m == 0 then 1 else 10 * Pow10(m - 1)
  }

  lemma DigitsConcat(a: string, b: string)
    requires AllDigits(a) && AllDigits(b)
    ensures AllDigits(a + b)
  {
    assert forall i :: 0 <= i < |a + b| ==> (a + b)[i] == if i < |a| then a[i] else b[i - |a|];
  }

  lemma ShiftStep(va: int, p: int, vc: int, d: int)
    ensures (va * p + vc) * 10 + d == va * (p * 10) + (vc * 10 + d)
  {
  }

  /** The digits of a + b denote the value of a shifted past b, plus b. */
  lemma {:induction false} DigitsValueAppend(a: string, b: string)
    requires AllDigits(a) && AllDigits(b)
    ensures AllDigits(a + b)
    ensures DigitsValue(a + b) == DigitsValue(a) * Pow10(|b|) + DigitsValue(b)
  {
    DigitsConcat(a, b);
    if b == [] {
      assert a + b == a;
    } else {
      var c := b[..|b| - 1];
      DigitsValueAppend(a, c);
      assert (a + b)[..|a + b| - 1] == a + c;
      var d := b[|b| - 1] as int - '0' as int;
      assert DigitsValue(a + b) == DigitsValue(a + c) * 10 + d;
      assert DigitsValue(b) == DigitsValue(c) * 10 + d;
      ShiftStep(DigitsValue(a), Pow10(|c|), DigitsValue(c), d);
    }
  }

  /** Repeating a non-empty run of digits k times gives k or more digits,
      all of them digits. */
  lemma {:induction false} RepeatDigits(s: string, k: nat)
    requires |s| > 0 && AllDigits(s)
    ensures AllDigits(Repeat(s, k)) && |Repeat(s, k)| >= k
  {
    if k > 0 {
      RepeatDigits(s, k - 1);
      DigitsValueAppend(s, Repeat(s, k - 1));
    }
  }

  /** The text of a positive number repeated k >= 2 times denotes more than
      k times that number. */
  lemma {:induction false} RepeatValue(s: string, k: nat)
    requires |s| > 0 && AllDigits(s) && DigitsValue(s) > 0 && k >= 1
    ensures AllDigits(Repeat(s, k))
    ensures DigitsValue(Repeat(s, k)) >= k * DigitsValue(s)
    ensures k >= 2 ==> DigitsValue(Repeat(s, k)) > k * DigitsValue(s)
  {
    var l := DigitsValue(s);
    RepeatDigits(s, k);
    if k == 1 {
      assert Repeat(s, 1) == s + [];
      assert s + [] == s;
    } else {
      var rest := Repeat(s, k - 1);
      RepeatValue(s, k - 1);
      RepeatDigits(s, k - 1);
      DigitsValueAppend(s, rest);
      MulLeft(10, Pow10(|rest|), l);
      assert DigitsValue(Repeat(s, k)) >= 10 * l + (k - 1) * l;
      assert (k - 1) * l + l == k * l;
    }
  }

  /** int() of a non-empty run of digits is the value of the digits. */
  lemma ParseDigits(x: string)
    requires |x| > 0 && AllDigits(x)
    ensures ParseInt(x) == Some(DigitsValue(x))
  {
    assert IsDigit(x[0]) && IsDigit(x[|x| - 1]);
    TrimStartStops(x);
    TrimEndStops(x);
  }

  /** On page 2 the text limit repeated once is the limit itself, which
      reads back as the corrected offset: the two readings agree there. */
  lemma OffsetAsWrittenSecondPage(l: int)
    ensures OffsetAsWritten(2, LimitAsWritten(Given(Show(l)))) == PyText(Show(l))
    ensures ParseInt(Show(l)) == Some(Offset(2, CoerceLimit(Given(Show(l)))))
  {
    ParseShow(l);
    assert Repeat(Show(l), 1) == Show(l) + [];
    assert Show(l) + [] == Show(l);
  }

  /** The text of a positive number repeated k >= 2 times reads as a
      number larger than k times that number. */
  lemma RepeatedTextValue(l: int, k: nat)
    requires l > 0 && k >= 2
    ensures ParseInt(Repeat(Show(l), k)).Some?
    ensures ParseInt(Repeat(Show(l), k)).value > k * l
  {
    var s := Decimal(l);
    assert Show(l) == s;
    DecimalValue(l);
    RepeatValue(s, k);
    RepeatDigits(s, k);
    ParseDigits(Repeat(s, k));
  }

  /** From page 3 on, with a positive limit given as its canonical text,
      the offset the handlers compute is text whose number is past the
      first row of the page, for every such page and limit. */
  lemma OffsetAsWrittenMisreads(page: int, l: int)
    requires page >= 3 && l > 0
    ensures var o := OffsetAsWritten(page, LimitAsWritten(Given(Show(l))));
      && o.PyText?
      && ParseInt(o.s).Some?
      && ParseInt(o.s).value > Offset(page, CoerceLimit(Given(Show(l))))
  {
    CoercionSample(l);
    RepeatedTextValue(l, page - 1);
  }

  lemma DecimalSamples()
    ensures Show(3) == "3" && Show(10) == "10" && Show(1010) == "1010"
  {
    assert Decimal(1) == "1";
    assert Decimal(10) == "10";
    assert Decimal(101) == "101";
  }

  lemma RepeatTwice(s: string)
    ensures Repeat(s, 2) == s + s
  {
    assert Repeat(s, 0) == [];
    assert Repeat(s, 1) == s;
  }

  lemma ParseSamples()
    ensures ParseInt("3") == Some(3)
    ensures ParseInt("10") == Some(10)
    ensures ParseInt("1010") == Some(1010)
  {
    DecimalSamples();
    ParseShow(3);
    ParseShow(10);
    ParseShow(1010);
  }

  lemma LimitSample()
    ensures LimitAsWritten(Given("10")) == PyText("10")
    ensures CoercePage(Given("3")) == 3 && CoerceLimit(Given("10")) == 10
  {
    CoercionSample(3);
    CoercionSample(10);
    DecimalSamples();
  }

  lemma CoercionSample(n: int)
    ensures LimitAsWritten(Given(Show(n))) == PyText(Show(n))
    ensures CoercePage(Given(Show(n))) == n && CoerceLimit(Given(Show(n))) == n
  {
    ParseShow(n);
  }

  lemma OffsetSample()
    ensures OffsetAsWritten(3, PyText("10")) == PyText("1010")
    ensures Paginate(3, 10, 0).Paging? && Paginate(3, 10, 0).offset == 20
  {
    RepeatTwice("10");
  }

  /** page=3&limit=10: the offset handed to the search is the text "1010",
      which reads as row 1010, where page 3 of 10-row pages starts at
      row 20. */
  lemma OffsetAsWrittenDiverges()
    ensures LimitAsWritten(Given("10")) == PyText("10")
    ensures OffsetAsWritten(3, PyText("10")) == PyText("1010")
    ensures ParseInt("1010") == Some(1010)
    ensures CoercePage(Given("3")) == 3 && CoerceLimit(Given("10")) == 10
    ensures Paginate(3, 10, 0).Paging? && Paginate(3, 10, 0).offset == 20
  {
    ParseSamples();
    LimitSample();
    OffsetSample();
  }

}
