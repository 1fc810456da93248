/** SQL placeholders (internal/store/rebind.go) and the multi-row event insert built on them
    (internal/store/session_event.go). */
module Rebind {
  import opened Basics
  import opened Text

  // ----- decimal numerals -----

  function Pow10(k: nat): (p: nat)
    ensures p > 0
  {
    if k == 0 then 1 else 10 * Pow10(k - 1)
  }

  /** Decimal digits without leading zeros; nothing for zero. */
  function Digits(n: nat): string {
    if n == 0 then [] else Digits(n / 10) + ['0' + (n % 10) as char]
  }

  const BUFFER := 16

  /** What itoa returns: the empty string for a negative number, and an index panic when the
      numeral does not fit the buffer. */
  function Numeral(n: int): Result<string> {
    if n == 0 then Ok("0")
    else if n < 0 then Ok("")
    else if n < Pow10(BUFFER) then Ok(Digits(n))
    else Err("index out of range")
  }

  lemma {:induction false} DigitsDenote(n: nat)
    ensures AllDigits(Digits(n)) && Denotes(Digits(n)) == n
    ensures n > 0 ==> Digits(n) != [] && Digits(n)[0] != '0'
  {
    if n > 0 {
      DigitsDenote(n / 10);
      assert Digits(n)[..|Digits(n)| - 1] == Digits(n / 10);
    }
  }

  /** A numeral has at most k digits exactly when the number is below ten to the k. */
  lemma {:induction false} DigitsFit(n: nat, k: nat)
    ensures |Digits(n)| <= k <==> n < Pow10(k)
  {
    if n > 0 && k > 0 {
      assert n / 10 < Pow10(k - 1) <==> n < 10 * Pow10(k - 1);
      DigitsFit(n / 10, k - 1);
    }
  }

  lemma TenToTheSixteenth()
    ensures Pow10(BUFFER) == 10_000_000_000_000_000
  {
    assert Pow10(4) == 10_000;
    assert Pow10(8) == 100_000_000;
    assert Pow10(12) == 1_000_000_000_000;
  }

  /** The decimal numeral of a number below ten to the sixteen, without leading zeros; the
      empty string for a negative number. */
  ghost predicate IsNumeral(n: int, r: Result<string>) {
    && (r.Err? <==> n >= 10_000_000_000_000_000)
    && (n < 0 ==> r == Ok(""))
    && (r.Ok? && n >= 0 ==> r.value != "" && AllDigits(r.value) && Denotes(r.value) == n)
    && (r.Ok? && n > 0 ==> r.value[0] != '0')
  }

  lemma NumeralMeans(n: int, r: Result<string>)
    requires r == Numeral(n)
    ensures IsNumeral(n, r)
  {
    TenToTheSixteenth();
    if n > 0 {
      DigitsDenote(n);
    } else if n == 0 {
      assert "0"[..0] == "" && Denotes("0") == 0;
    }
  }

  method Itoa(n: int) returns (r: Result<string>)
    ensures r == Numeral(n)
    ensures IsNumeral(n, r)
  {
    NumeralMeans(n, Numeral(n));
    if n == 0 {
      return Ok("0");
    }
    var digits := new char[BUFFER];
    var i, m := digits.Length, n;
    while m > 0
      invariant 0 <= i <= BUFFER && (n < 0 ==> m == n && i == BUFFER) && (n >= 0 ==> m >= 0)
      invariant n > 0 ==> Digits(m) + digits[i..] == Digits(n)
      decreases m
    {
      if i == 0 {
        assert |Digits(n)| > BUFFER;
        DigitsFit(n, BUFFER);
        return Err("index out of range");
      }
      i := i - 1;
      digits[i] := '0' + (m % 10) as char;
      assert digits[i..] == [digits[i]] + digits[i + 1..];
      m := m / 10;
    }
    if n > 0 {
      assert Digits(m) == [] && digits[i..] == Digits(n);
      DigitsFit(n, BUFFER);
    } else {
      assert digits[i..] == [];
    }
    return Ok(digits[i..]);
  }

  // ----- rebind -----

  function Marks(q: string): nat {
    if q == [] then 0 else (if q[0] == '?' then 1 else 0) + Marks(q[1..])
  }

  /** The query with its placeholders numbered from n + 1 on. */
  function Numbered(q: string, n: nat): string {
    if q == [] then []
    else if q[0] == '?' then "$" + Digits(n + 1) + Numbered(q[1..], n + 1)
    else [q[0]] + Numbered(q[1..], n)
  }

  function Rebound(driver: string, q: string): Result<string> {
    if driver != "pgx" then Ok(q)
    else if Marks(q) >= Pow10(BUFFER) then Err("index out of range")
    else Ok(Numbered(q, 0))
  }

  lemma {:induction false} MarksAppend(q: string, more: string)
    ensures Marks(q + more) == Marks(q) + Marks(more)
  {
    if q == [] {
      assert q + more == more;
    } else {
      assert (q + more)[1..] == q[1..] + more;
      MarksAppend(q[1..], more);
    }
  }

  lemma {:induction false} NumberedAppend(q: string, more: string, n: nat)
    ensures Numbered(q + more, n) == Numbered(q, n) + Numbered(more, n + Marks(q))
  {
    if q == [] {
      assert q + more == more;
    } else {
      assert (q + more)[1..] == q[1..] + more;
      NumberedAppend(q[1..], more, if q[0] == '?' then n + 1 else n);
    }
  }

  lemma NumberedOne(last: string, n: nat)
    requires |last| == 1
    ensures Marks(last) == if last[0] == '?' then 1 else 0
    ensures Numbered(last, n) == if last[0] == '?' then "$" + Digits(n + 1) else last
  {
    assert last[1..] == [] && last == [last[0]];
  }

  /** One more character of the scan. */
  lemma NumberedLast(q: string, c: char)
    ensures Marks(q + [c]) == Marks(q) + if c == '?' then 1 else 0
    ensures Numbered(q + [c], 0) == Numbered(q, 0) + if c == '?' then "$" + Digits(Marks(q) + 1) else [c]
  {
    NumberedOne([c], Marks(q));
    NumberedAppend(q, [c], 0);
    MarksAppend(q, [c]);
  }

  lemma ScanStep(q: string, i: nat)
    requires i < |q|
    ensures q[..i + 1] == q[..i] + [q[i]] && Marks(q[..i + 1]) <= Marks(q)
  {
    var done, rest := q[..i + 1], q[i + 1..];
    assert done + rest == q;
    MarksAppend(done, rest);
  }

  method Rebind(driver: string, query: string) returns (r: Result<string>)
    ensures r == Rebound(driver, query)
    ensures driver != "pgx" ==> r == Ok(query)
  {
    if driver != "pgx" {
      return Ok(query);
    }
    var sb, n := [], 0;
    assert query[..0] == [];
    for i := 0 to |query|
      invariant n == Marks(query[..i]) < Pow10(BUFFER) && sb == Numbered(query[..i], 0)
    {
      ScanStep(query, i);
      NumberedLast(query[..i], query[i]);
      if query[i] == '?' {
        n := n + 1;
        var number := Itoa(n);
        if number.Err? {
          return number;
        }
        sb := sb + "$" + number.value;
      } else {
        sb := sb + [query[i]];
      }
    }
    assert query[..|query|] == query;
    return Ok(sb);
  }

  // ----- undoing it -----

  function DropDigits(s: string): (t: string)
    ensures |t| <= |s| && (t != [] ==> !IsDigit(t[0]))
    ensures |t| == |s| <==> s == [] || !IsDigit(s[0])
  {
    if s == [] || !IsDigit(s[0]) then s else DropDigits(s[1..])
  }

  predicate DigitNext(s: string) {
    |s| > 1 && IsDigit(s[1])
  }

  /** Each `$digits` back to `?`. */
  function Unbind(s: string): string
    decreases |s|
  {
    if s == [] then []
    else if s[0] == '$' && DigitNext(s) then "?" + Unbind(DropDigits(s[1..]))
    else [s[0]] + Unbind(s[1..])
  }

  /** What rebinding and unbinding make of a query: the digits after a placeholder are
      swallowed, and a `$digits` of the query itself is taken for one. */
  function Swallowed(q: string): (r: string)
    decreases |q|
  {
    if q == [] then []
    else if q[0] == '?' || (q[0] == '$' && DigitNext(q)) then "?" + Swallowed(DropDigits(q[1..]))
    else [q[0]] + Swallowed(q[1..])
  }

  lemma {:induction false} DropPrefix(d: string, s: string)
    requires AllDigits(d)
    ensures DropDigits(d + s) == DropDigits(s)
  {
    if d == [] {
      assert d + s == s;
    } else {
      assert (d + s)[1..] == d[1..] + s;
      DropPrefix(d[1..], s);
    }
  }

  lemma {:induction false} DropNumbered(q: string, n: nat)
    ensures DropDigits(Numbered(q, n)) == Numbered(DropDigits(q), n)
    ensures Numbered(q, n) != [] <==> q != []
    ensures q != [] ==> (IsDigit(Numbered(q, n)[0]) <==> IsDigit(q[0]))
  {
    if q != [] {
      DropNumbered(q[1..], n);
      if q[0] != '?' {
        assert Numbered(q, n)[1..] == Numbered(q[1..], n);
      }
    }
  }

  lemma UnbindMark(d: string, rest: string)
    requires d != [] && AllDigits(d)
    ensures Unbind("$" + d + rest) == "?" + Unbind(DropDigits(rest))
  {
    var s := "$" + d + rest;
    assert s[1..] == d + rest && s[1] == d[0];
    DropPrefix(d, rest);
  }

  lemma {:induction false} UnbindNumbered(q: string, n: nat)
    ensures Unbind(Numbered(q, n)) == Swallowed(q)
    decreases |q|
  {
    if q == [] {
    } else if q[0] == '?' {
      DigitsDenote(n + 1);
      UnbindMark(Digits(n + 1), Numbered(q[1..], n + 1));
      DropNumbered(q[1..], n + 1);
      UnbindNumbered(DropDigits(q[1..]), n + 1);
    } else {
      var s, rest := Numbered(q, n), Numbered(q[1..], n);
      assert s[1..] == rest && s[0] == q[0];
      DropNumbered(q[1..], n);
      assert DigitNext(s) <==> DigitNext(q);
      if q[0] == '$' && DigitNext(q) {
        UnbindNumbered(DropDigits(q[1..]), n);
      } else {
        UnbindNumbered(q[1..], n);
      }
    }
  }

  /** No placeholder and no dollar sign of the query stands right before a digit. */
  predicate Plain(q: string) {
    forall k | 0 <= k < |q| - 1 :: (q[k] == '?' || q[k] == '$') ==> !IsDigit(q[k + 1])
  }

  lemma {:induction false} SwallowedShrinks(q: string)
    ensures |Swallowed(q)| <= |q|
    ensures Plain(q) ==> Swallowed(q) == q
    ensures !Plain(q) ==> |Swallowed(q)| < |q|
    decreases |q|
  {
    if q != [] {
      var rest := q[1..];
      PlainRest(q);
      if q[0] == '?' || (q[0] == '$' && DigitNext(q)) {
        SwallowedShrinks(DropDigits(rest));
        if rest == [] || !IsDigit(rest[0]) {
          assert DropDigits(rest) == rest;
        }
      } else {
        SwallowedShrinks(rest);
      }
    }
  }

  lemma PlainRest(q: string)
    requires q != []
    ensures Plain(q) <==> Plain(q[1..]) && !((q[0] == '?' || q[0] == '$') && DigitNext(q))
  {
    if Plain(q[1..]) && !((q[0] == '?' || q[0] == '$') && DigitNext(q)) {
      forall k | 0 <= k < |q| - 1 && (q[k] == '?' || q[k] == '$')
        ensures !IsDigit(q[k + 1])
      {
        if k > 0 {
          assert q[1..][k - 1] == q[k] && q[1..][k] == q[k + 1];
        }
      }
    }
  }

  /** Mapping every `$digits` back to `?` undoes the rewriting exactly for the plain queries. */
  lemma RoundTripExactly(q: string)
    requires Marks(q) < Pow10(BUFFER)
    ensures var r := Rebound("pgx", q); r.Ok? && (Unbind(r.value) == q <==> Plain(q))
  {
    UnbindNumbered(q, 0);
    SwallowedShrinks(q);
  }

  // ----- the numbers are 1 to N -----

  function TakeDigits(s: string): (d: string)
    ensures AllDigits(d)
  {
    if s == [] || !IsDigit(s[0]) then [] else [s[0]] + TakeDigits(s[1..])
  }

  /** The numbers of the placeholders of a rewritten query, in order. */
  function Ordinals(s: string): seq<nat>
    decreases |s|
  {
    if s == [] then []
    else if s[0] == '$' && DigitNext(s) then [Denotes(TakeDigits(s[1..]))] + Ordinals(DropDigits(s[1..]))
    else Ordinals(s[1..])
  }

  lemma {:induction false} TakeWhole(d: string, s: string)
    requires AllDigits(d) && (s == [] || !IsDigit(s[0]))
    ensures TakeDigits(d + s) == d
  {
    if d == [] {
      assert d + s == s;
    } else {
      assert (d + s)[1..] == d[1..] + s;
      TakeWhole(d[1..], s);
    }
  }

  /** n + 1 to n + count. */
  function From(n: nat, count: nat): seq<nat>
    decreases count
  {
    if count == 0 then [] else [n + 1] + From(n + 1, count - 1)
  }

  lemma OrdinalsMark(n: nat, rest: string)
    requires rest == [] || !IsDigit(rest[0])
    ensures Ordinals("$" + Digits(n + 1) + rest) == [n + 1] + Ordinals(rest)
  {
    DigitsDenote(n + 1);
    var d := Digits(n + 1);
    var s := "$" + d + rest;
    assert s[1..] == d + rest && s[1] == d[0];
    DropPrefix(d, rest);
    TakeWhole(d, rest);
  }

  lemma MarkCounted(mark: string, rest: string, n: nat)
    requires mark == "?" && (rest != [] ==> !IsDigit(rest[0]))
    ensures Ordinals(Numbered(mark + rest, n)) == [n + 1] + Ordinals(Numbered(rest, n + 1))
    ensures Marks(mark + rest) == 1 + Marks(rest)
  {
    var q := mark + rest;
    assert q[0] == '?' && q[1..] == rest;
    DropNumbered(rest, n + 1);
    OrdinalsMark(n, Numbered(rest, n + 1));
  }

  lemma OtherCounted(c: char, rest: string, n: nat)
    requires c != '?' && !(c == '$' && rest != [] && IsDigit(rest[0]))
    ensures Ordinals(Numbered([c] + rest, n)) == Ordinals(Numbered(rest, n)) && Marks([c] + rest) == Marks(rest)
  {
    var q, t := [c] + rest, Numbered(rest, n);
    assert q[0] == c && q[1..] == rest;
    DropNumbered(rest, n);
    OrdinalsOther(c, t);
  }

  lemma OrdinalsOther(c: char, t: string)
    requires !(c == '$' && t != [] && IsDigit(t[0]))
    ensures Ordinals([c] + t) == Ordinals(t)
  {
    var s := [c] + t;
    assert s[1..] == t && (DigitNext(s) <==> t != [] && IsDigit(t[0]));
  }

  /** On a plain query the placeholders are numbered from n + 1 in order, one per mark. */
  lemma {:induction false} OrdinalsCountUp(q: string, n: nat)
    requires Plain(q)
    ensures Ordinals(Numbered(q, n)) == From(n, Marks(q))
    decreases |q|
  {
    if q != [] {
      var c, rest := q[0], q[1..];
      PlainRest(q);
      assert q == [c] + rest;
      if c == '?' {
        MarkCounted([c], rest, n);
        OrdinalsCountUp(rest, n + 1);
      } else {
        OtherCounted(c, rest, n);
        OrdinalsCountUp(rest, n);
      }
    }
  }

  // ----- InsertEvents -----

  const NUL := "\\u0000"
  const REPLACEMENT := "\\ufffd"

  predicate NulAt(b: string, k: int) {
    0 <= k && k + 6 <= |b| && b[k..k + 6] == NUL
  }

  /** bytes.ReplaceAll of the NUL escape. */
  function Sanitized(b: string): (r: string)
    ensures |r| == |b|
  {
    if |b| < 6 then b
    else if b[..6] == NUL then REPLACEMENT + Sanitized(b[6..])
    else [b[0]] + Sanitized(b[1..])
  }

  datatype Row = Row(session: string, kind: string, payload: string, createdAt: int)

  datatype Arg = Str(s: string) | Time(t: int)

  datatype Statement = Statement(sql: string, args: seq<Arg>)

  const INSERT := "INSERT INTO session_events " + "(session_id, event_type, " + "payload, created_at) VALUES "
  const TUPLE := "(?, ?, ?, ?)"

  /** The tuple of row i with its four numbers. */
  function NumberedTuple(i: nat): string {
    "($" + Digits(4 * i + 1) + ", $" + Digits(4 * i + 2) + ", $" + Digits(4 * i + 3) + ", $" + Digits(4 * i + 4) + ")"
  }

  /** The statement PostgreSQL should get for n rows. */
  function PgInsert(head: string, n: nat): string {
    if n == 0 then head else PgInsert(head, n - 1) + (if n > 1 then "," else "") + NumberedTuple(n - 1)
  }

  /** The statement with n copies of the unnumbered tuple. */
  function PlainInsert(head: string, tuple: string, n: nat): string {
    if n == 0 then head else PlainInsert(head, tuple, n - 1) + (if n > 1 then "," else "") + tuple
  }

  const COLUMNS := ["session_id", "event_type", "payload", "created_at"]

  /** The column list of the statement. */
  lemma InsertColumns()
    ensures COLUMNS[0] == "session_id" && COLUMNS[1] == "event_type"
    ensures COLUMNS[2] == "payload" && COLUMNS[3] == "created_at"
    ensures INSERT == "INSERT INTO session_events (" + Join(COLUMNS, ", ") + ") VALUES "
  {
    FourJoined("session_id", "event_type", "payload", "created_at", ", ");
    HeadAssembled("INSERT INTO session_events ", "(", "session_id", "event_type", "payload", "created_at", ", ");
  }

  lemma TwoJoined(parts: seq<string>, sep: string)
    requires |parts| == 2
    ensures Join(parts, sep) == parts[0] + sep + parts[1]
  {
    assert parts[1..] == [parts[1]];
  }

  lemma FourJoined(a: string, b: string, c: string, d: string, sep: string)
    ensures Join([a, b, c, d], sep) == a + sep + b + sep + c + sep + d
  {
    TwoJoined([c, d], sep);
    assert [b, c, d][1..] == [c, d] && [a, b, c, d][1..] == [b, c, d];
    assert Join([b, c, d], sep) == b + sep + (c + sep + d);
    assert a + sep + (b + sep + (c + sep + d)) == a + sep + b + sep + c + sep + d;
  }

  lemma HeadAssembled(into: string, open: string, a: string, b: string, c: string, d: string, sep: string)
    requires into == "INSERT INTO session_events " && open == "("
    requires a == "session_id" && b == "event_type" && c == "payload" && d == "created_at" && sep == ", "
    ensures INSERT == into + open + (a + sep + b + sep + c + sep + d) + ") VALUES "
  {
    HeadStart(open, a, b, sep);
    HeadEnd(c, d, sep, ") VALUES ");
  }

  lemma HeadStart(open: string, a: string, b: string, sep: string)
    requires open == "(" && a == "session_id" && b == "event_type" && sep == ", "
    ensures "(session_id, event_type, " == open + a + sep + b + sep
  {
  }

  lemma HeadEnd(c: string, d: string, sep: string, close: string)
    requires c == "payload" && d == "created_at" && sep == ", " && close == ") VALUES "
    ensures "payload, created_at) VALUES " == c + sep + d + close
  {
  }

  /** The four arguments of row i, under the four columns. */
  ghost predicate RowBound(args: seq<Arg>, i: nat, e: Row) {
    && 4 * i + 4 <= |args|
    && args[4 * i] == Str(e.session)
    && args[4 * i + 1] == Str(e.kind)
    && args[4 * i + 2] == Str(Sanitized(e.payload))
    && args[4 * i + 3] == Time(e.createdAt)
  }

  /** One tuple for each event, and the arguments of row i at the positions its numbers name. */
  ghost predicate Inserts(st: Statement, driver: string, events: seq<Row>) {
    && st.sql == INSERT + Join(Tuples(driver, |events|), ",")
    && |st.args| == 4 * |events|
    && forall i | 0 <= i < |events| :: RowBound(st.args, i, events[i])
  }

  function Tuples(driver: string, n: nat): (tuples: seq<string>)
    ensures |tuples| == n
    ensures forall i | 0 <= i < n :: tuples[i] == if driver == "pgx" then NumberedTuple(i) else TUPLE
  {
    seq(n, (i: nat) => if driver == "pgx" then NumberedTuple(i) else TUPLE)
  }

  lemma TuplesNext(driver: string, n: nat)
    requires n > 0
    ensures Tuples(driver, n) ==
            Tuples(driver, n - 1) + [if driver == "pgx" then NumberedTuple(n - 1) else TUPLE]
  {
    var all, next := Tuples(driver, n), if driver == "pgx" then NumberedTuple(n - 1) else TUPLE;
    assert all[n - 1] == next && all[..n - 1] == Tuples(driver, n - 1);
  }

  lemma JoinedNext(head: string, sql: string, tuples: seq<string>, tuple: string)
    requires sql == head + Join(tuples, ",")
    ensures head + Join(tuples + [tuple], ",") == sql + (if tuples == [] then "" else ",") + tuple
  {
    JoinLast(tuples, tuple, ",");
  }

  lemma {:induction false} PlainIsJoined(driver: string, head: string, n: nat)
    requires driver != "pgx"
    ensures PlainInsert(head, TUPLE, n) == head + Join(Tuples(driver, n), ",")
  {
    if n > 0 {
      PlainIsJoined(driver, head, n - 1);
      TuplesNext(driver, n);
      JoinedNext(head, PlainInsert(head, TUPLE, n - 1), Tuples(driver, n - 1), TUPLE);
    }
  }

  lemma {:induction false} PgIsJoined(driver: string, head: string, n: nat)
    requires driver == "pgx"
    ensures PgInsert(head, n) == head + Join(Tuples(driver, n), ",")
  {
    if n > 0 {
      PgIsJoined(driver, head, n - 1);
      TuplesNext(driver, n);
      JoinedNext(head, PgInsert(head, n - 1), Tuples(driver, n - 1), NumberedTuple(n - 1));
    }
  }

  /** Builds statement and arguments in one pass over the events. */
  method Assemble(events: seq<Row>) returns (sql: string, args: seq<Arg>)
    ensures sql == PlainInsert(INSERT, TUPLE, |events|) && |args| == 4 * |events|
    ensures forall i | 0 <= i < |events| :: RowBound(args, i, events[i])
  {
    sql, args := INSERT, [];
    for i := 0 to |events|
      invariant sql == PlainInsert(INSERT, TUPLE, i) && |args| == 4 * i
      invariant forall j | 0 <= j < i :: RowBound(args, j, events[j])
    {
      if i > 0 {
        sql := sql + ",";
      }
      sql := sql + TUPLE;
      var e := events[i];
      args := args + [Str(e.session), Str(e.kind), Str(Sanitized(e.payload)), Time(e.createdAt)];
    }
  }

  lemma ReboundInsert(driver: string, head: string, tuple: string, n: nat)
    requires head == INSERT && tuple == TUPLE
    ensures var sql := PlainInsert(head, tuple, n);
      Rebound(driver, sql) ==
        if driver != "pgx" then Ok(sql)
        else if 4 * n >= Pow10(BUFFER) then Err("index out of range")
        else Ok(PgInsert(head, n))
  {
    HeadMarks(head);
    TupleMarks(tuple);
    InsertNumbered(head, tuple, n);
  }

  /** No statement for no rows, and the numeral's panic beyond what its buffer holds. */
  method InsertEvents(driver: string, events: seq<Row>) returns (r: Result<Option<Statement>>)
    ensures r.Err? <==> driver == "pgx" && 4 * |events| >= Pow10(BUFFER)
    ensures r.Ok? ==> (r.value.None? <==> events == [])
    ensures r.Ok? && r.value.Some? ==> Inserts(r.value.value, driver, events)
  {
    if |events| == 0 {
      return Ok(None);
    }
    var sql, args := Assemble(events);
    ReboundInsert(driver, INSERT, TUPLE, |events|);
    if driver == "pgx" {
      PgIsJoined(driver, INSERT, |events|);
    } else {
      PlainIsJoined(driver, INSERT, |events|);
    }
    var rebound := Rebind(driver, sql);
    if rebound.Err? {
      return Err(rebound.reason);
    }
    return Ok(Some(Statement(rebound.value, args)));
  }

  lemma {:induction false} NumberedText(q: string, n: nat)
    requires '?' !in q
    ensures Numbered(q, n) == q && Marks(q) == 0
    decreases |q|
  {
    if q != [] {
      NumberedText(q[1..], n);
    }
  }

  /** One more placeholder and the text after it. */
  lemma NumberedNext(q: string, mark: string, text: string, n: nat)
    requires mark == "?" && '?' !in text
    ensures Numbered(q + mark + text, n) == Numbered(q, n) + ("$" + Digits(n + Marks(q) + 1)) + text
    ensures Marks(q + mark + text) == Marks(q) + 1
  {
    assert Numbered(q + mark, n) == Numbered(q, n) + ("$" + Digits(n + Marks(q) + 1)) by {
      NumberedOne(mark, n + Marks(q));
      NumberedAppend(q, mark, n);
    }
    assert Marks(q + mark) == Marks(q) + 1 by {
      NumberedOne(mark, 0);
      MarksAppend(q, mark);
    }
    TextAppended(q + mark, text, n);
  }

  lemma TextAppended(q: string, text: string, n: nat)
    requires '?' !in text
    ensures Numbered(q + text, n) == Numbered(q, n) + text && Marks(q + text) == Marks(q)
  {
    NumberedText(text, n + Marks(q));
    NumberedAppend(q, text, n);
    MarksAppend(q, text);
  }

  lemma NumberedTwo(q: string, mark: string, comma: string, text: string, n: nat)
    requires mark == "?" && '?' !in comma && '?' !in text
    ensures Numbered(q + mark + comma + mark + text, n) ==
      Numbered(q, n) + ("$" + Digits(n + Marks(q) + 1)) + comma + ("$" + Digits(n + Marks(q) + 2)) + text
    ensures Marks(q + mark + comma + mark + text) == Marks(q) + 2
  {
    NumberedNext(q, mark, comma, n);
    NumberedNext(q + mark + comma, mark, text, n);
  }

  lemma NumberedRow(open: string, mark: string, comma: string, close: string, n: nat)
    requires mark == "?" && '?' !in open && '?' !in comma && '?' !in close
    ensures var row := open + mark + comma + mark + comma + mark + comma + mark + close;
      && Marks(row) == 4
      && Numbered(row, n) == open + ("$" + Digits(n + 1)) + comma + ("$" + Digits(n + 2)) + comma +
          ("$" + Digits(n + 3)) + comma + ("$" + Digits(n + 4)) + close
  {
    var half := open + mark + comma + mark + comma;
    HalfRow(open, mark, comma, n);
    NumberedTwo(half, mark, comma, close, n);
  }

  lemma HalfRow(open: string, mark: string, comma: string, n: nat)
    requires mark == "?" && '?' !in open && '?' !in comma
    ensures var half := open + mark + comma + mark + comma;
      && Marks(half) == 2
      && Numbered(half, n) == open + ("$" + Digits(n + 1)) + comma + ("$" + Digits(n + 2)) + comma
  {
    NumberedText(open, n);
    NumberedTwo(open, mark, comma, comma, n);
  }

  /** The tuple has four placeholders, which get four consecutive numbers. */
  ghost predicate Fourfold(tuple: string) {
    Marks(tuple) == 4 && forall i: nat :: Numbered(tuple, 4 * i) == NumberedTuple(i)
  }

  lemma FourfoldRow(open: string, mark: string, comma: string, close: string)
    requires open == "(" && mark == "?" && comma == ", " && close == ")"
    ensures Fourfold(open + mark + comma + mark + comma + mark + comma + mark + close)
  {
    var tuple := open + mark + comma + mark + comma + mark + comma + mark + close;
    NumberedRow(open, mark, comma, close, 0);
    forall i: nat
      ensures Numbered(tuple, 4 * i) == NumberedTuple(i)
    {
      NumberedRow(open, mark, comma, close, 4 * i);
      RowIsTuple(open, comma, close, i);
    }
  }

  lemma RowIsTuple(open: string, comma: string, close: string, i: nat)
    requires open == "(" && comma == ", " && close == ")"
    ensures open + ("$" + Digits(4 * i + 1)) + comma + ("$" + Digits(4 * i + 2)) + comma + ("$" + Digits(4 * i + 3)) +
            comma + ("$" + Digits(4 * i + 4)) + close == NumberedTuple(i)
  {
  }

  lemma TupleMarks(tuple: string)
    requires tuple == TUPLE
    ensures Fourfold(tuple)
  {
    FourfoldRow("(", "?", ", ", ")");
    assert tuple == "(" + "?" + ", " + "?" + ", " + "?" + ", " + "?" + ")";
  }

  lemma HeadMarks(head: string)
    requires head == INSERT
    ensures '?' !in head
  {
    var a, b, c := "INSERT INTO session_events ", "(session_id, event_type, ", "payload, created_at) VALUES ";
    assert '?' !in a;
    assert '?' !in b;
    assert '?' !in c;
    assert head == a + b + c;
  }

  lemma TupleAppended(before: string, comma: string, tuple: string, i: nat)
    requires '?' !in comma && Fourfold(tuple) && Marks(before) == 4 * i
    ensures Numbered(before + comma + tuple, 0) == Numbered(before, 0) + comma + NumberedTuple(i)
    ensures Marks(before + comma + tuple) == 4 * i + 4
  {
    TextAppended(before, comma, 0);
    FourfoldAppended(before + comma, tuple, i);
  }

  lemma FourfoldAppended(q: string, tuple: string, i: nat)
    requires Fourfold(tuple) && Marks(q) == 4 * i
    ensures Numbered(q + tuple, 0) == Numbered(q, 0) + NumberedTuple(i) && Marks(q + tuple) == 4 * i + 4
  {
    NumberedAppend(q, tuple, 0);
    MarksAppend(q, tuple);
  }

  /** The rewritten statement of n rows: row i has the numbers 4i + 1 to 4i + 4. */
  lemma {:induction false} InsertNumbered(head: string, tuple: string, n: nat)
    requires '?' !in head && Fourfold(tuple)
    ensures Numbered(PlainInsert(head, tuple, n), 0) == PgInsert(head, n)
    ensures Marks(PlainInsert(head, tuple, n)) == 4 * n
  {
    if n == 0 {
      NumberedText(head, 0);
    } else {
      InsertNumbered(head, tuple, n - 1);
      TupleAppended(PlainInsert(head, tuple, n - 1), if n > 1 then "," else "", tuple, n - 1);
    }
  }

  // ----- the payload -----

  /** Position k belongs to a NUL escape. */
  ghost predicate Inside(b: string, k: int) {
    exists j | k - 6 < j <= k :: NulAt(b, j)
  }

  ghost predicate ReplacementAt(b: string, k: int) {
    0 <= k && k + 6 <= |b| && b[k..k + 6] == REPLACEMENT
  }

  /** An escape starts at its only backslash, so two of them do not overlap. */
  lemma OneBackslash(b: string, k: int, i: int)
    requires NulAt(b, k) || ReplacementAt(b, k)
    requires k <= i < k + 6
    ensures b[i] == '\\' <==> i == k
  {
    assert b[i] == b[k..k + 6][i - k];
  }

  lemma NulAtRest(b: string, i: nat, k: int)
    requires i <= |b| && i <= k
    ensures NulAt(b, k) <==> NulAt(b[i..], k - i)
  {
    if k + 6 <= |b| {
      assert b[i..][k - i..k - i + 6] == b[k..k + 6];
    }
  }

  /** Every NUL escape turns into a U+FFFD escape. */
  lemma {:induction false} NulsReplaced(b: string, j: int)
    requires NulAt(b, j)
    ensures ReplacementAt(Sanitized(b), j)
  {
    var r := Sanitized(b);
    var i := if b[..6] == NUL then 6 else 1;
    if j == 0 {
      assert b[..6] == NUL;
    } else {
      OneBackslash(b, j, j);
      if b[..6] == NUL && j < 6 {
        OneBackslash(b, 0, j);
      }
      NulAtRest(b, i, j);
      NulsReplaced(b[i..], j - i);
      assert r[i..] == Sanitized(b[i..]);
      assert r[j..j + 6] == r[i..][j - i..j - i + 6];
    }
  }

  /** Every other character stays. */
  lemma {:induction false} OthersKept(b: string, k: nat)
    requires k < |b| && !Inside(b, k)
    ensures Sanitized(b)[k] == b[k]
  {
    if |b| >= 6 {
      var i := if b[..6] == NUL then 6 else 1;
      assert NulAt(b, 0) <==> b[..6] == NUL;
      if k >= i {
        forall j | k - i - 6 < j <= k - i
          ensures !NulAt(b[i..], j)
        {
          if j >= 0 {
            NulAtRest(b, i, j + i);
          }
        }
        OthersKept(b[i..], k - i);
      }
    }
  }

  /** No NUL escape is left, which is what the jsonb column asks for. */
  lemma NoNulLeft(b: string, j: int)
    ensures !NulAt(Sanitized(b), j)
  {
    var r := Sanitized(b);
    if NulAt(r, j) {
      forall k | j <= k < j + 6
        ensures r[k] == b[k]
      {
        if Inside(b, k) {
          var m :| k - 6 < m <= k && NulAt(b, m);
          NulsReplaced(b, m);
          BackslashFirst(r, m, j);
        } else {
          OthersKept(b, k);
        }
      }
      assert b[j..j + 6] == r[j..j + 6];
      NulsReplaced(b, j);
    }
  }

  /** The two escapes cannot touch each other's ground. */
  lemma BackslashFirst(r: string, m: int, j: int)
    requires ReplacementAt(r, m) && NulAt(r, j)
    ensures m + 6 <= j || j + 6 <= m
  {
    OneBackslash(r, m, m);
    OneBackslash(r, j, j);
    if m < j < m + 6 {
      OneBackslash(r, m, j);
    } else if j < m < j + 6 {
      OneBackslash(r, j, m);
    } else if m == j {
      SamePlace(r, m);
    }
  }

  lemma SamePlace(r: string, m: int)
    requires ReplacementAt(r, m)
    ensures !NulAt(r, m)
  {
    assert r[m..m + 6][2] == 'f';
  }

  /** A payload stays as it is exactly when the NUL escape's characters occur nowhere in it. */
  lemma KeptExactly(b: string)
    ensures Sanitized(b) == b <==> forall j :: !NulAt(b, j)
  {
    if forall j :: !NulAt(b, j) {
      forall k | 0 <= k < |b|
        ensures Sanitized(b)[k] == b[k]
      {
        OthersKept(b, k);
      }
    } else {
      var j :| NulAt(b, j);
      NoNulLeft(b, j);
    }
  }

  /** How many backslashes stand directly before position j. */
  function Backslashes(b: string, j: nat): nat
    requires j <= |b|
  {
    if j == 0 || b[j - 1] != '\\' then 0 else 1 + Backslashes(b, j - 1)
  }

  /** Reading the JSON text from its start, where a backslash takes the next character with
      it, one comes to begin anew at position j. */
  predicate BeginsAt(b: string, j: nat)
    requires j <= |b|
  {
    || j == 0
    || (b[j - 1] != '\\' && BeginsAt(b, j - 1))
    || (j >= 2 && b[j - 2] == '\\' && BeginsAt(b, j - 2))
  }

  /** So one does exactly behind an even number of backslashes. */
  lemma {:induction false} BeginsExactly(b: string, j: nat)
    requires j <= |b|
    ensures BeginsAt(b, j) <==> Backslashes(b, j) % 2 == 0
  {
    if j > 0 {
      BeginsExactly(b, j - 1);
    }
    if j >= 2 {
      BeginsExactly(b, j - 2);
    }
  }

  /** A NUL escape of the JSON text: its backslash is not itself escaped. */
  ghost predicate Genuine(b: string, j: int) {
    NulAt(b, j) && BeginsAt(b, j)
  }

  ghost predicate Changed(b: string, k: int) {
    0 <= k < |b| && Sanitized(b)[k] != b[k]
  }

  ghost predicate InGenuine(b: string, k: int) {
    exists j | k - 6 < j <= k :: Genuine(b, j)
  }

  /** The rewriting changes only genuine escapes exactly if the escape's characters stand
      nowhere behind an odd number of backslashes, where they are plain text. */
  lemma OnlyGenuineChangedExactly(b: string)
    ensures (forall k | Changed(b, k) :: InGenuine(b, k)) <==>
            (forall j | NulAt(b, j) :: Backslashes(b, j) % 2 == 0)
  {
    forall j | NulAt(b, j) ensures Genuine(b, j) <==> Backslashes(b, j) % 2 == 0 {
      BeginsExactly(b, j);
    }
    if forall j | NulAt(b, j) :: Genuine(b, j) {
      forall k | Changed(b, k) ensures InGenuine(b, k) {
        ChangedIsInside(b, k);
      }
    } else {
      var j :| NulAt(b, j) && !Genuine(b, j);
      PlainTextChanged(b, j);
    }
  }

  lemma ChangedIsInside(b: string, k: int)
    requires Changed(b, k)
    ensures Inside(b, k)
  {
    if !Inside(b, k) {
      OthersKept(b, k);
    }
  }

  /** The characters of the escape that are plain text are changed as well. */
  lemma PlainTextChanged(b: string, j: int)
    requires NulAt(b, j) && !Genuine(b, j)
    ensures Changed(b, j + 2) && !InGenuine(b, j + 2)
  {
    NulsReplaced(b, j);
    assert b[j + 2] == b[j..j + 6][2] && Sanitized(b)[j + 2] == Sanitized(b)[j..j + 6][2];
    forall i | j + 2 - 6 < i <= j + 2 ensures !Genuine(b, i) {
      if NulAt(b, i) && i != j {
        NulsApart(b, i, j);
      }
    }
  }

  lemma NulsApart(b: string, i: int, j: int)
    requires NulAt(b, i) && NulAt(b, j) && i != j
    ensures i + 6 <= j || j + 6 <= i
  {
    OneBackslash(b, i, i);
    OneBackslash(b, j, j);
    if i < j < i + 6 {
      OneBackslash(b, i, j);
    } else if j < i < j + 6 {
      OneBackslash(b, j, i);
    }
  }

  /** Those characters need not be an escape: after an escaped backslash they are text, and
      a JSON string that reads \\u0000 literally is stored as \\ufffd. */
  lemma EscapedBackslashRewritten()
    ensures Sanitized("\\\\u0000") == "\\\\ufffd"
  {
    assert NulAt("\\\\u0000", 1);
    var rest := "\\\\u0000"[1..];
    assert rest == NUL && rest[6..] == [];
  }
}
