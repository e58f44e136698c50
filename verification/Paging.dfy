/** Token pagination of ListVolumes and ListSnapshots (crates/btrfs-csi/src/csi_controller.rs). */
module Paging {
  import opened Options
  import opened Text

  type I32 = x: int | -0x8000_0000 <= x < 0x8000_0000

  /** A vector holds fewer elements than this. */
  const VEC_LIMIT: nat := 0x8000_0000_0000_0000

  /** `max_entries as usize`: a negative page size becomes a huge one. */
  function ToUsize(m: I32): nat {
    if m < 0 then m + U64_LIMIT else m
  }

  /** A token that is not a number starts at the beginning. */
  function StartOf(token: string): nat {
    match ParseU64(token)
    case None => 0
    case Some(n) => n
  }

  function From<T>(entries: seq<T>, start: nat): seq<T> {
    if start <= |entries| then entries[start..] else []
  }

  function Take<T>(entries: seq<T>, count: nat): seq<T> {
    if count <= |entries| then entries[..count] else entries
  }

  /** `start + max`, which wraps as it does without overflow checks. */
  function EndOf(start: nat, m: I32): nat {
    (start + ToUsize(m)) % U64_LIMIT
  }

  lemma EndWithoutWrap(start: nat, m: I32)
    requires start < VEC_LIMIT && (m < 0 ==> start == 0)
    ensures EndOf(start, m) == start + ToUsize(m) && (m < 0 ==> EndOf(start, m) >= VEC_LIMIT)
  {
  }

  /** One response: the page and the next token, empty at the end. */
  function Page<T>(entries: seq<T>, token: string, m: I32): (seq<T>, string) {
    var start, max, end := StartOf(token), ToUsize(m), EndOf(StartOf(token), m);
    if max > 0 && |entries| > end then
      (Take(From(entries, start), max), Decimal(end))
    else
      (From(entries, start), "")
  }

  /** The tokens a client can hold who started from the empty one. */
  predicate Issued<T>(entries: seq<T>, token: string, m: I32) {
    StartOf(token) <= |entries| < VEC_LIMIT && (m < 0 ==> StartOf(token) == 0)
  }

  lemma NextTokenAdvances<T>(entries: seq<T>, token: string, m: I32)
    requires Issued(entries, token, m) && Page(entries, token, m).1 != ""
    ensures m > 0 && StartOf(Page(entries, token, m).1) == StartOf(token) + m < |entries|
    ensures Page(entries, token, m).0 == entries[StartOf(token)..StartOf(token) + m]
  {
    EndWithoutWrap(StartOf(token), m);
    ParseDecimal(EndOf(StartOf(token), m));
  }

  /** A token beyond the listing gets an empty last page, and one that is no number the
      first page. */
  lemma OddTokens<T>(entries: seq<T>, token: string, m: I32)
    requires |entries| < VEC_LIMIT
    ensures 0 <= m && |entries| <= StartOf(token) < VEC_LIMIT ==> Page(entries, token, m) == ([], "")
    ensures ParseU64(token) == None ==> Page(entries, token, m) == Page(entries, "0", m)
  {
    if 0 <= m && StartOf(token) < VEC_LIMIT { EndWithoutWrap(StartOf(token), m); }
    assert StartOf(token) == |entries| ==> entries[StartOf(token)..] == [];
    ParseDecimal(0);
    assert Decimal(0) == "0";
  }

  lemma StartIsBounded(token: string)
    ensures StartOf(token) < U64_LIMIT
  {
  }

  /** Exactly when a next token lies before the current one: the sum wraps and lands inside
      the listing. For a negative page size that is every token from `-m` up to the listing's
      length plus `-m`; for a positive one the token is near the end of the 64-bit range. */
  lemma TokenStepsBackExactly<T>(entries: seq<T>, token: string, m: I32)
    requires |entries| < VEC_LIMIT
    ensures var next := Page(entries, token, m).1;
      next != "" && StartOf(next) < StartOf(token) <==>
        || (m < 0 && 0 <= StartOf(token) + m < |entries|)
        || (m > 0 && 0 <= StartOf(token) + m - U64_LIMIT < |entries|)
  {
    StartIsBounded(token);
    WrappedEnd(StartOf(token), m);
    ParseDecimal(EndOf(StartOf(token), m));
    DecimalShape(EndOf(StartOf(token), m));
  }

  lemma WrappedEnd(start: nat, m: I32)
    requires start < U64_LIMIT
    ensures EndOf(start, m) ==
      if start + ToUsize(m) < U64_LIMIT then start + ToUsize(m) else start + ToUsize(m) - U64_LIMIT
  {
  }

  /** The pages a client collects by following tokens. */
  function Follow<T>(entries: seq<T>, token: string, m: I32): seq<seq<T>>
    requires Issued(entries, token, m)
    decreases |entries| - StartOf(token)
  {
    var (page, next) := Page(entries, token, m);
    if next == "" then [page] else
      NextTokenAdvances(entries, token, m);
      [page] + Follow(entries, next, m)
  }

  function Concat<T>(pages: seq<seq<T>>): seq<T> {
    if pages == [] then [] else pages[0] + Concat(pages[1..])
  }

  lemma {:induction false} PagesFrom<T>(entries: seq<T>, token: string, m: I32)
    requires Issued(entries, token, m)
    ensures Concat(Follow(entries, token, m)) == entries[StartOf(token)..]
    decreases |entries| - StartOf(token)
  {
    var (page, next) := Page(entries, token, m);
    var start := StartOf(token);
    if next == "" {
      assert Follow(entries, token, m) == [page] && Concat([page]) == page;
    } else {
      NextTokenAdvances(entries, token, m);
      PagesFrom(entries, next, m);
      var rest := Follow(entries, next, m);
      assert Concat([page] + rest) == page + Concat(rest) by { assert ([page] + rest)[1..] == rest; }
      assert entries[start..] == entries[start..start + m] + entries[start + m..];
    }
  }

  lemma {:induction false} PagesAreBounded<T>(entries: seq<T>, token: string, m: I32)
    requires Issued(entries, token, m) && m > 0
    ensures forall p | p in Follow(entries, token, m) :: |p| <= m
    decreases |entries| - StartOf(token)
  {
    var (page, next) := Page(entries, token, m);
    if next != "" {
      NextTokenAdvances(entries, token, m);
      PagesAreBounded(entries, next, m);
    }
  }

  /** From the empty token, for every listing and every page size, the pages concatenate to
      the whole listing; no page exceeds a positive page size, and any other gives one page. */
  lemma PagesAreTheListing<T>(entries: seq<T>, m: I32)
    requires |entries| < VEC_LIMIT
    ensures Concat(Follow(entries, "", m)) == entries
    ensures m > 0 ==> forall p | p in Follow(entries, "", m) :: |p| <= m
    ensures m <= 0 ==> Follow(entries, "", m) == [entries]
  {
    PagesFrom(entries, "", m);
    if m > 0 { PagesAreBounded(entries, "", m); }
  }
}
