/** String primitives behind the xattr texts: trimming, splitting, joining and
    decimal numbers, as the Rust standard library defines them. */
module Text {
  import opened Options

  const U64_LIMIT: nat := 0x1_0000_0000_0000_0000

  /** `char::is_whitespace`: the Unicode White_Space property. */
  predicate IsWhitespace(c: char) {
    var n := c as int;
    || 0x09 <= n <= 0x0D || n == 0x20 || n == 0x85 || n == 0xA0 || n == 0x1680
    || 0x2000 <= n <= 0x200A || n == 0x2028 || n == 0x2029 || n == 0x202F
    || n == 0x205F || n == 0x3000
  }

  function TrimStart(s: string): string {
    if s != "" && IsWhitespace(s[0]) then TrimStart(s[1..]) else s
  }

  function TrimEnd(s: string): string {
    if s != "" && IsWhitespace(s[|s| - 1]) then TrimEnd(s[..|s| - 1]) else s
  }

  function Trim(s: string): string {
    TrimEnd(TrimStart(s))
  }

  predicate Trimmed(s: string) {
    s != "" ==> !IsWhitespace(s[0]) && !IsWhitespace(s[|s| - 1])
  }

  lemma TrimStartShape(s: string)
    ensures TrimStart(s) != "" ==> !IsWhitespace(TrimStart(s)[0])
    ensures forall c | c in TrimStart(s) :: c in s
  {
  }

  lemma {:induction false} TrimEndShape(s: string)
    ensures TrimEnd(s) <= s
    ensures TrimEnd(s) != "" ==> !IsWhitespace(TrimEnd(s)[|TrimEnd(s)| - 1])
  {
    if s != "" && IsWhitespace(s[|s| - 1]) { TrimEndShape(s[..|s| - 1]); }
  }

  /** Trimming yields a trimmed string made of the same characters, and is the
      identity exactly on trimmed strings. */
  lemma TrimShape(s: string)
    ensures Trimmed(Trim(s))
    ensures forall c | c in Trim(s) :: c in s
    ensures Trim(s) == s <==> Trimmed(s)
  {
    TrimStartShape(s);
    TrimEndShape(TrimStart(s));
  }

  predicate AllWhitespace(s: string) {
    forall c | c in s :: IsWhitespace(c)
  }

  lemma {:induction false} TrimStartTakes(s: string) returns (i: nat)
    ensures i <= |s| && TrimStart(s) == s[i..] && AllWhitespace(s[..i])
  {
    if s != "" && IsWhitespace(s[0]) {
      i := TrimStartTakes(s[1..]);
      i := i + 1;
      assert s[..i] == [s[0]] + s[1..][..i - 1];
    } else {
      i := 0;
    }
  }

  lemma {:induction false} TrimEndTakes(s: string) returns (j: nat)
    ensures j <= |s| && TrimEnd(s) == s[..j] && AllWhitespace(s[j..])
  {
    if s != "" && IsWhitespace(s[|s| - 1]) {
      var t := s[..|s| - 1];
      j := TrimEndTakes(t);
      assert s[j..] == t[j..] + [s[|s| - 1]];
    } else {
      j := |s|;
    }
  }

  /** Trimming takes off whitespace at both ends and nothing else. */
  lemma TrimTakesWhitespace(s: string) returns (i: nat, j: nat)
    ensures i <= j <= |s| && Trim(s) == s[i..j] && AllWhitespace(s[..i]) && AllWhitespace(s[j..])
  {
    i := TrimStartTakes(s);
    var k := TrimEndTakes(s[i..]);
    j := i + k;
    assert s[j..] == s[i..][k..];
  }

  /** Index of the first `sep`, or the length when there is none. */
  function Find(s: string, sep: char): (i: nat)
    ensures i <= |s|
    ensures sep !in s[..i]
    ensures forall k | 0 <= k < i :: s[k] != sep
    ensures i < |s| ==> s[i] == sep
    ensures i == |s| <==> sep !in s
  {
    if s == "" || s[0] == sep then 0 else 1 + Find(s[1..], sep)
  }

  lemma FindUnique(s: string, sep: char, i: nat)
    requires i < |s| && s[i] == sep && forall k | 0 <= k < i :: s[k] != sep
    ensures Find(s, sep) == i
  {
  }

  /** `str::split`: always at least one piece. */
  function Split(s: string, sep: char): (r: seq<string>)
    ensures |r| >= 1
    decreases |s|
  {
    var i := Find(s, sep);
    if i == |s| then [s] else [s[..i]] + Split(s[i + 1..], sep)
  }

  function Join(xs: seq<string>, sep: char): string {
    if xs == [] then "" else if |xs| == 1 then xs[0] else xs[0] + [sep] + Join(xs[1..], sep)
  }

  lemma {:induction false} SplitPieces(s: string, sep: char)
    ensures forall p | p in Split(s, sep) :: sep !in p
    decreases |s|
  {
    var i := Find(s, sep);
    if i < |s| { SplitPieces(s[i + 1..], sep); }
  }

  lemma {:induction false} SplitJoin(xs: seq<string>, sep: char)
    requires xs != []
    requires forall x | x in xs :: sep !in x
    ensures Split(Join(xs, sep), sep) == xs
  {
    var s := Join(xs, sep);
    if |xs| == 1 {
      assert sep !in xs[0];
    } else {
      var i := |xs[0]|;
      assert s == xs[0] + [sep] + Join(xs[1..], sep);
      assert s[..i] == xs[0] && s[i + 1..] == Join(xs[1..], sep);
      assert xs[0] in xs;
      FindUnique(s, sep, i);
      SplitJoin(xs[1..], sep);
      assert xs == [xs[0]] + xs[1..];
    }
  }

  /** Splitting loses nothing. */
  lemma {:induction false} JoinSplit(s: string, sep: char)
    ensures Join(Split(s, sep), sep) == s
    decreases |s|
  {
    var i := Find(s, sep);
    if i < |s| {
      JoinSplit(s[i + 1..], sep);
      JoinAt(s, i, Split(s[i + 1..], sep), sep);
    }
  }

  lemma JoinAt(s: string, i: nat, rest: seq<string>, sep: char)
    requires i < |s| && s[i] == sep && rest != [] && Join(rest, sep) == s[i + 1..]
    ensures Join([s[..i]] + rest, sep) == s
  {
    JoinCons(s[..i], rest, sep);
  }

  lemma JoinCons(x: string, rest: seq<string>, sep: char)
    requires rest != []
    ensures Join([x] + rest, sep) == x + [sep] + Join(rest, sep)
  {
    assert ([x] + rest)[1..] == rest;
  }

  /** Joining trimmed pieces with a visible separator gives a trimmed text. */
  lemma {:induction false} JoinTrimmed(xs: seq<string>, sep: char)
    requires !IsWhitespace(sep)
    requires forall x | x in xs :: Trimmed(x)
    ensures Trimmed(Join(xs, sep))
  {
    if xs != [] {
      assert Trimmed(xs[0]);
      if |xs| > 1 {
        JoinTrimmed(xs[1..], sep);
      }
    }
  }

  ghost predicate Distinct(xs: seq<string>) {
    forall i, j | 0 <= i < j < |xs| :: xs[i] != xs[j]
  }

  lemma InsertAt(xs: seq<string>, p: nat, x: string)
    requires p <= |xs| && x !in xs && Distinct(xs)
    ensures Distinct(xs[..p] + [x] + xs[p..])
    ensures forall y :: y in xs[..p] + [x] + xs[p..] <==> y == x || y in xs
  {
    assert xs == xs[..p] + xs[p..];
  }

  function Digit(d: nat): char
    requires d < 10
  {
    '0' + d as char
  }

  /** Decimal text of a number (`u64::to_string`). */
  function Decimal(n: nat): string {
    if n < 10 then [Digit(n)] else Decimal(n / 10) + [Digit(n % 10)]
  }

  predicate IsDigit(c: char) {
    '0' <= c <= '9'
  }

  /** The number a digit string denotes; no value when some character is not a digit. */
  function Value(s: string): Option<nat> {
    if s == "" then Some(0) else
      var last := s[|s| - 1];
      match Value(s[..|s| - 1])
      case None => None
      case Some(v) => if IsDigit(last) then Some(10 * v + (last as int - '0' as int)) else None
  }

  /** `str::parse::<u64>`: one leading '+' is allowed, overflow is an error. */
  function ParseU64(s: string): Option<nat> {
    var digits := if |s| > 1 && s[0] == '+' then s[1..] else s;
    if digits == "" then None else
      match Value(digits)
      case None => None
      case Some(v) => if v < U64_LIMIT then Some(v) else None
  }

  /** A text with a character that is no digit is no number. */
  lemma {:induction false} OnlyDigitsHaveValue(s: string, i: nat)
    requires i < |s| && !IsDigit(s[i])
    ensures Value(s) == None
  {
    if i < |s| - 1 { OnlyDigitsHaveValue(s[..|s| - 1], i); }
  }

  /** The value of a text is read from the left, digit by digit. */
  lemma {:induction false} ValueFromLeft(d: char, s: string, v: nat)
    requires IsDigit(d) && Value(s) == Some(v)
    ensures Value([d] + s) == Some((d as int - '0' as int) * Power10(|s|) + v)
  {
    var t := [d] + s;
    if s == "" {
      assert t[..0] == "";
    } else {
      var init := s[..|s| - 1];
      assert t[..|t| - 1] == [d] + init;
      ValueFromLeft(d, init, Value(init).value);
      TenTimes(d as int - '0' as int, Power10(|init|));
    }
  }

  lemma TenTimes(a: nat, b: nat)
    ensures 10 * (a * b) == a * (10 * b)
  {
  }

  function Power10(k: nat): nat {
    if k == 0 then 1 else 10 * Power10(k - 1)
  }

  /** Signs: one leading '+' before a digit, nothing else. */
  lemma SignsOf(s: string)
    ensures ParseU64("") == None && ParseU64("+") == None
    ensures |s| > 0 && s[0] != '+' && !IsDigit(s[0]) ==> ParseU64(s) == None
    ensures |s| > 0 && IsDigit(s[0]) ==> ParseU64("+" + s) == ParseU64(s)
    ensures |s| > 0 && !IsDigit(s[0]) ==> ParseU64("+" + s) == None
  {
    OnlyDigitsHaveValue("+", 0);
    if |s| > 0 {
      assert ("+" + s)[1..] == s;
      if !IsDigit(s[0]) { OnlyDigitsHaveValue(s, 0); }
    }
  }

  lemma {:induction false} DecimalShape(n: nat)
    ensures Decimal(n) != "" && Value(Decimal(n)) == Some(n)
    ensures forall c | c in Decimal(n) :: IsDigit(c)
  {
    if n >= 10 {
      DecimalShape(n / 10);
      assert Decimal(n)[..|Decimal(n)| - 1] == Decimal(n / 10);
    }
  }

  /** Reading back a printed number fails exactly when it does not fit 64 bits. */
  lemma ParseDecimal(n: nat)
    ensures ParseU64(Decimal(n)) == if n < U64_LIMIT then Some(n) else None
    ensures Trimmed(Decimal(n))
  {
    DecimalShape(n);
    var d := Decimal(n);
    assert IsDigit(d[0]) && IsDigit(d[|d| - 1]);
  }
}

/** The two structured xattr texts: `vector_clock` and `published`. */
module XattrText {
  import opened Options
  import opened Text
  import opened Clocks

  // ---------- vector clock: "node1:3,node2:7" ----------

  /** The pair a piece denotes, if it is well-formed. */
  function PairOf(piece: string): Option<(NodeId, nat)> {
    var p := Trim(piece);
    var i := Find(p, ':');
    if i == |p| then None else
      match ParseU64(Trim(p[i + 1..]))
      case None => None
      case Some(e) => Some((Trim(p[..i]), e))
  }

  function ParsePair(acc: Clock, piece: string): Clock {
    match PairOf(piece)
    case None => acc
    case Some(pair) => acc[pair.0 := pair.1]
  }

  function ParsePieces(pieces: seq<string>): Clock {
    if pieces == [] then map[] else
      ParsePair(ParsePieces(pieces[..|pieces| - 1]), pieces[|pieces| - 1])
  }

  function ParseClock(val: string): Clock {
    ParsePieces(Split(val, ','))
  }

  /** The loop body of `parse_vector_clock`: a malformed pair is skipped. */
  method InsertPair(clock: Clock, piece: string) returns (r: Clock)
    ensures r == ParsePair(clock, piece)
  {
    r := clock;
    var pair := Trim(piece);
    var i := Find(pair, ':');
    if i < |pair| {
      match ParseU64(Trim(pair[i + 1..])) {
        case Some(e) => r := clock[Trim(pair[..i]) := e];
        case None =>
      }
    }
  }

  method ParseVectorClock(val: string) returns (clock: Clock)
    ensures clock == ParseClock(val)
    ensures forall n | n in clock :: CleanKey(n)
  {
    clock := map[];
    var pieces := Split(val, ',');
    for k := 0 to |pieces|
      invariant clock == ParsePieces(pieces[..k])
    {
      assert pieces[..k + 1][..k] == pieces[..k];
      clock := InsertPair(clock, pieces[k]);
    }
    assert pieces[..|pieces|] == pieces;
    ParsedKeysClean(val);
  }

  /** Node ids that survive the clock text. */
  predicate CleanKey(n: NodeId) {
    Trimmed(n) && ',' !in n && ':' !in n
  }

  function PairText(n: NodeId, e: nat): string {
    n + ":" + Decimal(e)
  }

  /** The printed pairs of the nodes in `ks`. */
  function TextsOf(c: Clock, ks: set<NodeId>): set<string> {
    set n | n in ks :: PairText(n, At(c, n))
  }

  /** The printed pairs of a clock in some order: each once. */
  ghost predicate Lists(ts: seq<string>, c: Clock) {
    Distinct(ts) && forall t :: t in ts <==> t in TextsOf(c, c.Keys)
  }

  predicate Readable(c: Clock) {
    forall n | n in c :: CleanKey(n) && c[n] < U64_LIMIT
  }

  /** The last ':' of a printed pair ends the node id. */
  lemma PairTextShape(n: NodeId, e: nat)
    ensures var t := PairText(n, e);
      && |t| > |n| && t[|n|] == ':' && t[..|n|] == n && t[|n| + 1..] == Decimal(e)
      && forall i | |n| < i < |t| :: IsDigit(t[i])
  {
    var t := PairText(n, e);
    DecimalShape(e);
    forall i | |n| < i < |t| ensures IsDigit(t[i]) {
      assert t[i] == Decimal(e)[i - |n| - 1];
    }
  }

  lemma PairTextInjective(m: NodeId, d: nat, n: NodeId, e: nat)
    requires PairText(m, d) == PairText(n, e)
    ensures m == n && d == e
  {
    PairTextShape(m, d);
    PairTextShape(n, e);
    assert |m| == |n|;
    DecimalShape(d);
    DecimalShape(e);
  }

  /** A clean pair is printed as a trimmed, comma-free text. */
  lemma PairTextIsClean(n: NodeId, e: nat)
    requires CleanKey(n)
    ensures ',' !in PairText(n, e) && Trimmed(PairText(n, e))
  {
    var t := PairText(n, e);
    PairTextShape(n, e);
    DecimalShape(e);
    assert t == n + [':'] + Decimal(e);
    assert n != "" ==> t[0] == n[0];
    assert IsDigit(t[|t| - 1]);
  }

  lemma ParsePairText(acc: Clock, n: NodeId, e: nat)
    requires CleanKey(n) && e < U64_LIMIT
    ensures ParsePair(acc, PairText(n, e)) == acc[n := e]
  {
    var t := PairText(n, e);
    PairTextIsClean(n, e);
    PairTextShape(n, e);
    TrimShape(t);
    assert forall k | 0 <= k < |n| :: t[k] == t[..|n|][k];
    FindUnique(t, ':', |n|);
    TrimShape(n);
    ParseDecimal(e);
    TrimShape(Decimal(e));
  }

  lemma {:induction false} PiecesKeysClean(pieces: seq<string>)
    requires forall p | p in pieces :: ',' !in p
    ensures Readable(ParsePieces(pieces))
  {
    if pieces != [] {
      var last := pieces[|pieces| - 1];
      PiecesKeysClean(pieces[..|pieces| - 1]);
      assert last in pieces;
      var p := Trim(last);
      TrimShape(last);
      TrimShape(p[..Find(p, ':')]);
    }
  }

  /** Whatever the text, a parsed clock has clean keys and 64-bit entries. */
  lemma ParsedKeysClean(val: string)
    ensures Readable(ParseClock(val))
  {
    SplitPieces(val, ',');
    PiecesKeysClean(Split(val, ','));
  }

  function PairsOf(pieces: seq<string>): seq<Option<(NodeId, nat)>> {
    seq(|pieces|, i requires 0 <= i < |pieces| => PairOf(pieces[i]))
  }

  /** Pair `i` names the node, and no later one does. */
  ghost predicate LastNames(pairs: seq<Option<(NodeId, nat)>>, i: nat, n: NodeId, e: nat)
    requires i < |pairs|
  {
    && pairs[i] == Some((n, e))
    && forall j | i < j < |pairs| :: pairs[j].Some? ==> pairs[j].value.0 != n
  }

  ghost predicate Decides(pairs: seq<Option<(NodeId, nat)>>, n: NodeId, e: nat) {
    exists i | 0 <= i < |pairs| :: LastNames(pairs, i, n, e)
  }

  lemma DecidesSnoc(init: seq<Option<(NodeId, nat)>>, last: Option<(NodeId, nat)>, n: NodeId, e: nat)
    ensures Decides(init + [last], n, e) <==>
      if last.Some? && last.value.0 == n then last.value.1 == e else Decides(init, n, e)
  {
    var pairs := init + [last];
    if last == Some((n, e)) { assert LastNames(pairs, |init|, n, e); }
    if i :| 0 <= i < |init| && LastNames(init, i, n, e) {
      if !(last.Some? && last.value.0 == n) { assert LastNames(pairs, i, n, e); }
    }
    if i :| 0 <= i < |pairs| && LastNames(pairs, i, n, e) {
      if i < |init| {
        assert pairs[|init|] == last;
        assert forall j | 0 <= j < |init| :: init[j] == pairs[j];
        assert LastNames(init, i, n, e);
      }
    }
  }

  /** What any text means: a node has an entry exactly when some well-formed piece names it,
      and the last of these gives its value; malformed pieces are skipped. */
  lemma {:induction false} ParsedEntries(pieces: seq<string>, n: NodeId, e: nat)
    ensures n in ParsePieces(pieces) && ParsePieces(pieces)[n] == e <==> Decides(PairsOf(pieces), n, e)
  {
    if pieces != [] {
      var init, last := pieces[..|pieces| - 1], pieces[|pieces| - 1];
      ParsedEntries(init, n, e);
      assert PairsOf(pieces) == PairsOf(init) + [PairOf(last)];
      DecidesSnoc(PairsOf(init), PairOf(last), n, e);
    }
  }

  /** Parsing some of the printed pairs gives exactly their entries. */
  lemma {:induction false} ParseTexts(c: Clock, ts: seq<string>, n: NodeId)
    requires Readable(c) && forall t | t in ts :: t in TextsOf(c, c.Keys)
    ensures var m := ParsePieces(ts);
      && (n in m <==> n in c && PairText(n, c[n]) in ts)
      && (n in m ==> m[n] == c[n])
  {
    if ts != [] {
      var init, last := ts[..|ts| - 1], ts[|ts| - 1];
      assert last in ts && ts == init + [last];
      ParseTexts(c, init, n);
      var k :| k in c && last == PairText(k, At(c, k));
      ParsePairText(ParsePieces(init), k, c[k]);
      if n in c && PairText(n, c[n]) == last {
        PairTextInjective(n, c[n], k, c[k]);
      }
    }
  }

  lemma TextsReadBack(c: Clock, ts: seq<string>)
    requires Readable(c) && Lists(ts, c)
    ensures ParsePieces(ts) == c
  {
    var m := ParsePieces(ts);
    forall n ensures (n in m <==> n in c) && (n in m ==> m[n] == c[n]) {
      ParseTexts(c, ts, n);
      assert n in c ==> PairText(n, At(c, n)) in TextsOf(c, c.Keys);
    }
  }

  lemma TextsAreClean(c: Clock, ts: seq<string>)
    requires Readable(c) && Lists(ts, c)
    ensures forall t | t in ts :: ',' !in t && Trimmed(t)
  {
    forall t | t in ts ensures ',' !in t && Trimmed(t) {
      var k :| k in c && t == PairText(k, At(c, k));
      PairTextIsClean(k, c[k]);
    }
  }

  lemma EmptyPiece()
    ensures ParsePieces([""]) == map[]
  {
    assert [""][..0] == [] && Trim("") == "";
    assert ParsePieces([""]) == ParsePair(ParsePieces([]), "");
  }

  lemma CleanClockReadsBack(c: Clock, ts: seq<string>)
    requires Readable(c) && Lists(ts, c)
    ensures ParseClock(Join(ts, ',')) == c
    ensures Trimmed(Join(ts, ','))
  {
    TextsReadBack(c, ts);
    TextsAreClean(c, ts);
    JoinTrimmed(ts, ',');
    if ts == [] {
      assert Split("", ',') == [""];
      EmptyPiece();
    } else {
      SplitJoin(ts, ',');
    }
  }

  /** `parse_vector_clock` undoes `format_vector_clock`, in whatever order the pairs are
      printed, exactly when every node id is trimmed and free of ',' and ':'. */
  lemma ClockTextRoundTrip(c: Clock, ts: seq<string>)
    requires Lists(ts, c)
    requires forall n | n in c :: c[n] < U64_LIMIT
    ensures ParseClock(Join(ts, ',')) == c <==> forall n | n in c :: CleanKey(n)
  {
    if forall n | n in c :: CleanKey(n) {
      CleanClockReadsBack(c, ts);
    } else {
      ParsedKeysClean(Join(ts, ','));
    }
  }

  /** Lexicographic order of strings, as `Vec<String>::sort` uses it. */
  predicate Before(a: string, b: string) {
    a == "" || (b != "" && (a[0] < b[0] || (a[0] == b[0] && Before(a[1..], b[1..]))))
  }

  lemma BeforeIsTotal(a: string, b: string)
    ensures Before(a, b) || Before(b, a)
    ensures Before(a, b) && Before(b, a) ==> a == b
  {
    if a != "" && b != "" && a[0] == b[0] {
      BeforeIsTotal(a[1..], b[1..]);
      assert a == [a[0]] + a[1..] && b == [b[0]] + b[1..];
    }
  }

  lemma BeforeIsTransitive(a: string, b: string, c: string)
    requires Before(a, b) && Before(b, c)
    ensures Before(a, c)
  {
    if a != "" && a[0] == b[0] == c[0] {
      BeforeIsTransitive(a[1..], b[1..], c[1..]);
    }
  }

  ghost predicate Sorted(xs: seq<string>) {
    forall i, j | 0 <= i < j < |xs| :: Before(xs[i], xs[j])
  }

  /** What `format_vector_clock` prints: the pairs in sorted order. */
  ghost predicate Printed(c: Clock, s: string) {
    exists ts :: Lists(ts, c) && Sorted(ts) && s == Join(ts, ',')
  }

  lemma SortedInsert(xs: seq<string>, p: nat, t: string)
    requires p <= |xs| && Sorted(xs)
    requires p > 0 ==> Before(xs[p - 1], t)
    requires forall i | p <= i < |xs| :: Before(t, xs[i])
    ensures Sorted(xs[..p] + [t] + xs[p..])
  {
    var r := xs[..p] + [t] + xs[p..];
    forall i | 0 <= i < p ensures Before(xs[i], t) {
      if i < p - 1 { BeforeIsTransitive(xs[i], xs[p - 1], t); }
    }
    forall i, j | 0 <= i < j < |r| ensures Before(r[i], r[j]) {
      var a := if i < p then i else i - 1;
      if j < p { assert r[i] == xs[i] && r[j] == xs[j]; }
      else if j == p { assert r[i] == xs[i] && r[j] == t; }
      else if i == p { assert r[i] == t && r[j] == xs[j - 1]; }
      else { assert r[i] == xs[a] && r[j] == xs[j - 1]; }
    }
  }

  /** One insertion of the sort of the printed pairs. */
  method InsertSorted(xs: seq<string>, t: string) returns (r: seq<string>)
    requires Sorted(xs) && Distinct(xs) && t !in xs
    ensures Sorted(r) && Distinct(r) && forall x :: x in r <==> x == t || x in xs
  {
    var p := |xs|;
    while p > 0 && !Before(xs[p - 1], t)
      invariant 0 <= p <= |xs|
      invariant forall i | p <= i < |xs| :: Before(t, xs[i])
    {
      BeforeIsTotal(xs[p - 1], t);
      p := p - 1;
    }
    SortedInsert(xs, p, t);
    InsertAt(xs, p, t);
    r := xs[..p] + [t] + xs[p..];
  }

  method FormatVectorClock(clock: Clock) returns (s: string)
    ensures Printed(clock, s)
  {
    var pairs: seq<string> := [];
    var rest := clock.Keys;
    while rest != {}
      invariant rest <= clock.Keys
      invariant Sorted(pairs) && Distinct(pairs)
      invariant forall t :: t in pairs <==> t in TextsOf(clock, clock.Keys - rest)
      decreases rest
    {
      var n :| n in rest;
      NextText(clock, clock.Keys - rest, n);
      pairs := InsertSorted(pairs, PairText(n, clock[n]));
      assert clock.Keys - (rest - {n}) == (clock.Keys - rest) + {n};
      rest := rest - {n};
    }
    assert clock.Keys - rest == clock.Keys;
    s := Join(pairs, ',');
    assert Lists(pairs, clock);
  }

  lemma NextText(c: Clock, ks: set<NodeId>, n: NodeId)
    requires n !in ks
    ensures PairText(n, At(c, n)) !in TextsOf(c, ks)
    ensures TextsOf(c, ks + {n}) == TextsOf(c, ks) + {PairText(n, At(c, n))}
  {
    forall k | k in ks ensures PairText(k, At(c, k)) != PairText(n, At(c, n)) {
      if PairText(k, At(c, k)) == PairText(n, At(c, n)) {
        PairTextInjective(k, At(c, k), n, At(c, n));
      }
    }
  }

  /** The printed text does not depend on the iteration order of the map. */
  lemma PrintedIsUnique(c: Clock, s: string, t: string)
    requires Printed(c, s) && Printed(c, t)
    ensures s == t
  {
    var xs :| Lists(xs, c) && Sorted(xs) && s == Join(xs, ',');
    var ys :| Lists(ys, c) && Sorted(ys) && t == Join(ys, ',');
    SameOrder(xs, ys);
  }

  /** Two clocks with clean node ids that print equally are equal. */
  lemma PrintDeterminesClock(c: Clock, d: Clock, s: string)
    requires Printed(c, s) && Printed(d, s) && Readable(c) && Readable(d)
    ensures c == d
  {
    var xs :| Lists(xs, c) && Sorted(xs) && s == Join(xs, ',');
    var ys :| Lists(ys, d) && Sorted(ys) && s == Join(ys, ',');
    CleanClockReadsBack(c, xs);
    CleanClockReadsBack(d, ys);
  }

  lemma {:induction false} SameOrder(xs: seq<string>, ys: seq<string>)
    requires Sorted(xs) && Sorted(ys) && Distinct(xs) && Distinct(ys)
    requires forall t :: t in xs <==> t in ys
    ensures xs == ys
  {
    assert xs != [] ==> xs[0] in ys;
    assert ys != [] ==> ys[0] in xs;
    if xs != [] {
      FirstsAgree(xs, ys);
      forall t ensures t in xs[1..] <==> t in ys[1..] {
        assert t in xs <==> t == xs[0] || t in xs[1..];
        assert t in ys <==> t == ys[0] || t in ys[1..];
      }
      SameOrder(xs[1..], ys[1..]);
      assert xs == [xs[0]] + xs[1..] && ys == [ys[0]] + ys[1..];
    }
  }

  lemma FirstsAgree(xs: seq<string>, ys: seq<string>)
    requires Sorted(xs) && Sorted(ys) && xs != [] && ys != [] && xs[0] in ys && ys[0] in xs
    ensures xs[0] == ys[0]
  {
    var i :| 0 <= i < |ys| && ys[i] == xs[0];
    var j :| 0 <= j < |xs| && xs[j] == ys[0];
    assert i > 0 ==> Before(ys[0], xs[0]);
    assert j > 0 ==> Before(xs[0], ys[0]);
    BeforeIsTotal(xs[0], ys[0]);
  }

  // ---------- published nodes: "node1,node2" ----------

  function TrimAll(xs: seq<string>): seq<string> {
    seq(|xs|, i requires 0 <= i < |xs| => Trim(xs[i]))
  }

  /** `get_published_nodes` applied to the attribute text, if present. */
  function DecodePublished(v: Option<string>): seq<NodeId> {
    match v
    case None => []
    case Some(t) => if t == "" then [] else TrimAll(Split(t, ','))
  }

  predicate CleanItem(x: string) {
    Trimmed(x) && ',' !in x
  }

  lemma DecodedItemsClean(v: Option<string>)
    ensures forall x | x in DecodePublished(v) :: CleanItem(x)
  {
    if v.Some? {
      var ps := Split(v.value, ',');
      SplitPieces(v.value, ',');
      forall i | 0 <= i < |ps| ensures CleanItem(Trim(ps[i])) {
        assert ps[i] in ps;
        TrimShape(ps[i]);
      }
    }
  }

  /** The joined list decodes to itself exactly when every id is trimmed and
      comma-free and the list is not the single empty id. */
  lemma PublishedRoundTrip(xs: seq<NodeId>)
    ensures DecodePublished(Some(Trim(Join(xs, ',')))) == xs
       <==> xs != [""] && forall x | x in xs :: CleanItem(x)
  {
    var t := Join(xs, ',');
    DecodedItemsClean(Some(Trim(t)));
    if forall x | x in xs :: CleanItem(x) {
      JoinTrimmed(xs, ',');
      TrimShape(t);
      if xs != [] {
        SplitJoin(xs, ',');
        forall i | 0 <= i < |xs| ensures Trim(xs[i]) == xs[i] {
          assert xs[i] in xs;
          TrimShape(xs[i]);
        }
        assert TrimAll(xs) == xs;
        if |xs| > 1 { assert ',' in t; }
      }
    }
  }
}
