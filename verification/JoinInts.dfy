/** Lists of 64-bit integers written with commas between them, and read back. */
module JoinInts {
  import opened Wrappers
  import opened ParseUint

  const MIN_INT64 := -0x8000_0000_0000_0000
  const MAX_INT64 := 0x7fff_ffff_ffff_ffff

  type Int64 = x: int | MIN_INT64 <= x <= MAX_INT64

  // ---- One integer ---------------------------------------------------------------------------------

  function DecimalDigit(v: nat): (d: char)
    requires v < 10
    ensures '0' <= d <= '9' && Digit(d) == Some(v)
  {
    '0' + v as char
  }

  function Decimal(n: nat): (s: string)
    ensures s != ""
  {
    if n < 10 then [DecimalDigit(n)] else Decimal(n / 10) + [DecimalDigit(n % 10)]
  }

  function FormatInt(x: int): (s: string)
    ensures s != ""
  {
    if x < 0 then "-" + Decimal(-x) else Decimal(x)
  }

  predicate Signed(s: string) {
    s != "" && (s[0] == '+' || s[0] == '-')
  }

  function Unsigned(s: string): string {
    if Signed(s) then s[1..] else s
  }

  /** What reading one integer promises: an optional sign, then digits, within 64 bits. */
  ghost function ParsedInt(s: string): Result<Int64, Error> {
    if s == "" then Err(Syntax)
    else
      match Parsed(Unsigned(s), 10, 64)
      case Err(e) => Err(e)
      case Ok(n) =>
        if s[0] == '-' then if -MIN_INT64 < n then Err(Range) else Ok(0 - n)
        else if MAX_INT64 < n then Err(Range)
        else Ok(n)
  }

  method ParseInt(s: string) returns (x: Int64, error: Option<Error>)
    ensures ParsedInt(s) == if error.None? then Ok(x) else Err(error.value)
  {
    x := 0;
    if s == "" { return 0, Some(Syntax); }
    var neg := s[0] == '-';
    var n, e := Parse(Unsigned(s), 10, 64);
    if e.Some? { return 0, e; }
    if !neg && n >= -MIN_INT64 { return 0, Some(Range); }
    if neg && n > -MIN_INT64 { return 0, Some(Range); }
    return if neg then -n else n, None;
  }

  lemma {:induction false} DecimalValue(n: nat)
    ensures AllDigits(Decimal(n), 10) && Value(Decimal(n), 10) == n
    ensures forall i | 0 <= i < |Decimal(n)| :: '0' <= Decimal(n)[i] <= '9'
  {
    var s := Decimal(n);
    if 10 <= n {
      DecimalValue(n / 10);
      assert s[..|s| - 1] == Decimal(n / 10);
    } else {
      assert s[..0] == "";
    }
  }

  /** Reading succeeds exactly on digits with at most one sign in front, and gives the number that they write,
      negative after a minus sign, if it fits into 64 bits. */
  lemma ParsedIntOkIff(s: string, x: Int64)
    ensures ParsedInt(s) == Ok(x) <==>
              var digits := if s != "" && (s[0] == '+' || s[0] == '-') then s[1..] else s;
              && digits != "" && AllDigits(digits, 10)
              && x == if s[0] == '-' then 0 - Value(digits, 10) else Value(digits, 10)
  {
    hide AllDigits, Value, Parsed;
    if s != "" {
      var digits := Unsigned(s);
      MaxValueOfWord(64);
      if AllDigits(digits, 10) { ParsedOkIff(digits, 10, 64, Value(digits, 10)); }
      if Parsed(digits, 10, 64).Ok? { ParsedOkIff(digits, 10, 64, Parsed(digits, 10, 64).value); }
    }
  }

  /** Digits that write a number that does not fit are out of range. */
  lemma ParsedIntRange(s: string)
    requires s != "" && Unsigned(s) != "" && AllDigits(Unsigned(s), 10)
    ensures var n := Value(Unsigned(s), 10);
            (if s[0] == '-' then 0x8000_0000_0000_0000 < n else 0x7fff_ffff_ffff_ffff < n)
            <==> ParsedInt(s) == Err(Range)
  {
    hide AllDigits, Value;
    MaxValueOfWord(64);
    ExceedsIffTooLarge(Unsigned(s), 10, MaxValue(64));
  }

  /** Every 64-bit integer reads back as itself. */
  lemma IntRoundTrip(x: Int64)
    ensures ParsedInt(FormatInt(x)) == Ok(x)
  {
    hide AllDigits, Value, Decimal, Parsed;
    var n: int := if x < 0 then 0 - x else x;
    DecimalValue(n);
    MaxValueOfWord(64);
    ParsedOkIff(Decimal(n), 10, 64, n);
    assert Unsigned(FormatInt(x)) == Decimal(n);
  }

  /** Digits without a needless zero in front are the ones printing gives. */
  lemma {:induction false} DecimalOfValue(s: string)
    requires AllDigits(s, 10) && s != "" && (s[0] == '0' ==> |s| == 1)
    ensures Decimal(Value(s, 10)) == s
    ensures s[0] != '0' ==> 0 < Value(s, 10)
  {
    var t := s[..|s| - 1];
    var d := Digit(s[|s| - 1]).value;
    SameDigit(s[|s| - 1]);
    if t == "" {
      assert Value(s, 10) == d;
    } else {
      assert t[0] == s[0];
      DecimalOfValue(t);
      var n := Value(t, 10);
      assert Value(s, 10) == n * 10 + d;
      assert (n * 10 + d) / 10 == n && (n * 10 + d) % 10 == d;
    }
  }

  lemma SameDigit(c: char)
    requires IsDigit(c, 10)
    ensures '0' <= c <= '9' && DecimalDigit(Digit(c).value) == c
  {
  }

  /** No zero in front unless it is the only digit. */
  lemma {:induction false} DecimalLeads(n: nat)
    ensures Decimal(n)[0] == '0' <==> n == 0
    ensures Decimal(n)[0] == '0' ==> |Decimal(n)| == 1
  {
    if 10 <= n { DecimalLeads(n / 10); }
  }

  /** The way integers are printed: no plus sign, no needless zero, no negative zero. */
  predicate Canonical(s: string) {
    && s != "" && s[0] != '+' && s != "-0"
    && (Unsigned(s) != "" && Unsigned(s)[0] == '0' ==> |Unsigned(s)| == 1)
  }

  /** Printing what was read gives the same text exactly when the text was canonical. */
  lemma CanonicalIff(s: string)
    requires ParsedInt(s).Ok?
    ensures FormatInt(ParsedInt(s).value) == s <==> Canonical(s)
  {
    hide AllDigits, Value, Decimal, Parsed, IsDigit;
    var digits := Unsigned(s);
    var n := Parsed(digits, 10, 64).value;
    ParsedOkIff(digits, 10, 64, n);
    DecimalLeads(n);
    DecimalValue(n);
    if Canonical(s) {
      DecimalOfValue(digits);
      if s[0] == '-' {
        assert s == "-" + digits;
      }
    }
  }

  // ---- Lists ---------------------------------------------------------------------------------------

  ghost function Joined(xs: seq<Int64>): string {
    if xs == [] then "" else if |xs| == 1 then FormatInt(xs[0]) else FormatInt(xs[0]) + "," + Joined(xs[1..])
  }

  /** What a list looks like while it is written: every number followed by a comma. */
  ghost function Trailed(xs: seq<Int64>): string {
    if xs == [] then "" else Trailed(xs[..|xs| - 1]) + FormatInt(xs[|xs| - 1]) + ","
  }

  lemma Regroup(a: string, b: string, c: string, d: string)
    ensures (a + b) + c + d == a + (b + c + d)
  {
  }

  lemma {:induction false} TrailedStep(xs: seq<Int64>)
    requires xs != []
    ensures Trailed(xs) == FormatInt(xs[0]) + "," + Trailed(xs[1..])
    decreases |xs|
  {
    hide FormatInt;
    var front, last := xs[..|xs| - 1], xs[|xs| - 1];
    if |xs| == 1 {
      assert front == [] && xs[1..] == [];
    } else {
      TrailedStep(front);
      var tail := xs[1..];
      assert tail[..|tail| - 1] == front[1..] && tail[|tail| - 1] == last && front[0] == xs[0];
      Regroup(FormatInt(xs[0]) + ",", Trailed(front[1..]), FormatInt(last), ",");
    }
  }

  lemma {:induction false} JoinedIsTrailed(xs: seq<Int64>)
    requires xs != []
    ensures Joined(xs) + "," == Trailed(xs)
  {
    hide FormatInt;
    TrailedStep(xs);
    if |xs| == 1 {
      assert xs[1..] == [];
    } else {
      JoinedIsTrailed(xs[1..]);
    }
  }

  method Join(xs: seq<Int64>) returns (s: string)
    ensures s == Joined(xs)
  {
    hide FormatInt;
    if |xs| == 0 { return ""; }
    if |xs| == 1 { return FormatInt(xs[0]); }
    var buf := "";
    for i := 0 to |xs|
      invariant buf == Trailed(xs[..i])
    {
      assert xs[..i + 1][..i] == xs[..i];
      buf := buf + FormatInt(xs[i]);
      buf := buf + ",";
    }
    assert xs[..|xs|] == xs;
    JoinedIsTrailed(xs);
    if |buf| > 0 { buf := buf[..|buf| - 1]; }
    s := buf;
  }

  /** The parts between the commas. */
  function Parts(s: string): (parts: seq<string>)
    ensures parts != []
  {
    if s == "" then [""]
    else
      var rest := Parts(s[1..]);
      if s[0] == ',' then [""] + rest else [[s[0]] + rest[0]] + rest[1..]
  }

  ghost function Glued(parts: seq<string>): string
    requires parts != []
  {
    if |parts| == 1 then parts[0] else parts[0] + "," + Glued(parts[1..])
  }

  lemma GluedFirst(c: char, parts: seq<string>)
    requires parts != []
    ensures Glued([[c] + parts[0]] + parts[1..]) == [c] + Glued(parts)
  {
    var longer := [[c] + parts[0]] + parts[1..];
    assert longer[1..] == parts[1..];
    if 1 < |parts| {
      assert [c] + parts[0] + "," + Glued(parts[1..]) == [c] + (parts[0] + "," + Glued(parts[1..]));
    }
  }

  lemma GluedEmpty(parts: seq<string>)
    requires parts != []
    ensures Glued([""] + parts) == [','] + Glued(parts)
  {
    assert ([""] + parts)[1..] == parts;
  }

  lemma GluedOne(part: string)
    ensures Glued([part]) == part
  {
  }

  /** The parts are the one way to write the text as strings without commas, with commas between them. */
  lemma {:induction false} PartsGlue(s: string)
    ensures Glued(Parts(s)) == s
    ensures forall p | p in Parts(s) :: ',' !in p
  {
    hide Glued;
    if s == "" {
      GluedOne(s);
    } else {
      PartsGlue(s[1..]);
      var rest := Parts(s[1..]);
      assert s == [s[0]] + s[1..];
      if s[0] == ',' {
        GluedEmpty(rest);
      } else {
        GluedFirst(s[0], rest);
      }
    }
  }

  lemma {:induction false} FirstPart(p: string, t: string)
    requires ',' !in p
    ensures Parts(p) == [p]
    ensures Parts(p + "," + t) == [p] + Parts(t)
  {
    if p == "" {
      assert p + "," + t == "," + t && ("," + t)[1..] == t;
    } else {
      FirstPart(p[1..], t);
      var s := p + "," + t;
      assert s[1..] == p[1..] + "," + t;
      assert [p[0]] + p[1..] == p;
    }
  }

  lemma {:induction false} GluedParts(parts: seq<string>)
    requires parts != [] && forall p | p in parts :: ',' !in p
    ensures Parts(Glued(parts)) == parts
  {
    if |parts| == 1 {
      FirstPart(parts[0], "");
    } else {
      GluedParts(parts[1..]);
      FirstPart(parts[0], Glued(parts[1..]));
    }
  }

  /** All parts read as integers, or the error of the first that does not. */
  ghost function Ints(parts: seq<string>): Result<seq<Int64>, Error> {
    if parts == [] then Ok([])
    else
      match Ints(parts[..|parts| - 1])
      case Err(e) => Err(e)
      case Ok(xs) =>
        match ParsedInt(parts[|parts| - 1])
        case Err(e) => Err(e)
        case Ok(x) => Ok(xs + [x])
  }

  ghost function SplitInts(s: string): Result<seq<Int64>, Error> {
    if s == "" then Ok([]) else Ints(Parts(s))
  }

  method Split(s: string) returns (r: Result<seq<Int64>, Error>)
    ensures r == SplitInts(s)
  {
    hide Parts, ParsedInt;
    if s == "" { return Ok([]); }
    var parts := Parts(s);
    var xs: seq<Int64> := [];
    for i := 0 to |parts|
      invariant Ints(parts[..i]) == Ok(xs)
    {
      assert parts[..i + 1][..i] == parts[..i];
      var x, e := ParseInt(parts[i]);
      if e.Some? {
        IntsFails(parts, i + 1);
        return Err(e.value);
      }
      xs := xs + [x];
    }
    assert parts[..|parts|] == parts;
    r := Ok(xs);
  }

  lemma {:induction false} IntsFails(parts: seq<string>, k: nat)
    requires k <= |parts| && Ints(parts[..k]).Err?
    ensures Ints(parts) == Ints(parts[..k])
  {
    hide ParsedInt;
    if k == |parts| {
      assert parts[..k] == parts;
    } else {
      var front := parts[..|parts| - 1];
      assert front[..k] == parts[..k];
      IntsFails(front, k);
    }
  }

  /** Splitting succeeds with a list exactly when each part reads as its element. */
  lemma {:induction false} IntsOkIff(parts: seq<string>, xs: seq<Int64>)
    ensures Ints(parts) == Ok(xs) <==>
              |xs| == |parts| && forall i | 0 <= i < |parts| :: ParsedInt(parts[i]) == Ok(xs[i])
  {
    hide ParsedInt;
    if parts != [] && xs != [] {
      IntsOkIff(parts[..|parts| - 1], xs[..|xs| - 1]);
      assert xs == xs[..|xs| - 1] + [xs[|xs| - 1]];
    }
  }

  /** And it fails with the error of the first part that does not. */
  lemma {:induction false} IntsErrIff(parts: seq<string>, e: Error)
    ensures Ints(parts) == Err(e) <==>
              exists i: nat :: i < |parts| && FirstBad(parts, i, e)
  {
    hide ParsedInt, FirstBad;
    if parts != [] {
      var front, n := parts[..|parts| - 1], |parts| - 1;
      IntsErrIff(front, e);
      forall i: nat | i < n ensures FirstBad(front, i, e) <==> FirstBad(parts, i, e) {
        SameBad(front, parts, i, e);
      }
      LastBad(parts, e);
    }
  }

  ghost predicate FirstBad(parts: seq<string>, i: nat, e: Error)
    requires i < |parts|
  {
    ParsedInt(parts[i]) == Err(e) && forall j | 0 <= j < i :: ParsedInt(parts[j]).Ok?
  }

  lemma SameBad(front: seq<string>, parts: seq<string>, i: nat, e: Error)
    requires i < |front| < |parts| && front == parts[..|front|]
    ensures FirstBad(front, i, e) <==> FirstBad(parts, i, e)
  {
    hide ParsedInt;
    assert forall j | 0 <= j <= i :: front[j] == parts[j];
  }

  lemma LastBad(parts: seq<string>, e: Error)
    requires parts != []
    ensures FirstBad(parts, |parts| - 1, e) <==>
              Ints(parts[..|parts| - 1]).Ok? && ParsedInt(parts[|parts| - 1]) == Err(e)
  {
    hide ParsedInt;
    var front := parts[..|parts| - 1];
    if Ints(front).Ok? {
      IntsOkIff(front, Ints(front).value);
      assert forall j | 0 <= j < |front| :: front[j] == parts[j];
    }
    if FirstBad(parts, |parts| - 1, e) {
      var xs: seq<Int64> := seq(|front|, j requires 0 <= j < |front| =>
                                  assert front[j] == parts[j]; ParsedInt(front[j]).value);
      IntsOkIff(front, xs);
    }
  }

  function Formatted(xs: seq<Int64>): (parts: seq<string>)
    ensures |parts| == |xs| && forall i | 0 <= i < |xs| :: parts[i] == FormatInt(xs[i])
  {
    seq(|xs|, i requires 0 <= i < |xs| => FormatInt(xs[i]))
  }

  lemma {:induction false} JoinedIsGlued(xs: seq<Int64>)
    requires xs != []
    ensures Joined(xs) == Glued(Formatted(xs))
  {
    hide FormatInt;
    if 1 < |xs| {
      JoinedIsGlued(xs[1..]);
      assert Formatted(xs)[1..] == Formatted(xs[1..]);
    }
  }

  lemma NoComma(x: Int64)
    ensures ',' !in FormatInt(x)
  {
    hide Value, AllDigits;
    DecimalValue(if x < 0 then 0 - x else x);
  }

  lemma PartsOfJoined(xs: seq<Int64>)
    requires xs != []
    ensures Parts(Joined(xs)) == Formatted(xs) && Joined(xs) != ""
  {
    hide FormatInt, Formatted, Parts;
    forall i | 0 <= i < |xs| ensures ',' !in FormatInt(xs[i]) { NoComma(xs[i]); }
    JoinedIsGlued(xs);
    GluedParts(Formatted(xs));
  }

  /** A joined list splits into the list. */
  lemma ListRoundTrip(xs: seq<Int64>)
    ensures SplitInts(Joined(xs)) == Ok(xs)
  {
    hide FormatInt, ParsedInt, Parts, Formatted;
    if xs != [] {
      PartsOfJoined(xs);
      forall i | 0 <= i < |xs| ensures ParsedInt(FormatInt(xs[i])) == Ok(xs[i]) { IntRoundTrip(xs[i]); }
      IntsOkIff(Formatted(xs), xs);
    }
  }

  /** A text that splits into a list joins back to itself exactly when every part was canonical. */
  lemma TextRoundTripIff(s: string)
    requires SplitInts(s).Ok?
    ensures Joined(SplitInts(s).value) == s <==> s == "" || forall p | p in Parts(s) :: Canonical(p)
  {
    hide FormatInt, ParsedInt, Parts, Formatted, Canonical;
    if s != "" {
      var parts, xs := Parts(s), SplitInts(s).value;
      IntsOkIff(parts, xs);
      forall i | 0 <= i < |parts| ensures FormatInt(xs[i]) == parts[i] <==> Canonical(parts[i]) {
        CanonicalIff(parts[i]);
      }
      JoinedIsGlued(xs);
      PartsGlue(s);
      assert (forall p | p in parts :: Canonical(p)) ==> Formatted(xs) == parts;
      if Joined(xs) == s { PartsOfJoined(xs); }
    }
  }

  /** For example. */
  lemma JoinedExample()
    ensures Joined([12, -3, 0]) == "12,-3,0"
  {
    assert Decimal(12) == "12" by { assert Decimal(1) == "1"; }
    assert FormatInt(-3) == "-3" && FormatInt(0) == "0" && FormatInt(12) == "12";
    var xs: seq<Int64> := [12, -3, 0];
    assert xs[1..] == [-3, 0] && xs[1..][1..] == [0];
  }
}
