/** internal/entry/matcher.go: choosing the registration entry for a set of attested claims. */
module Matcher {
  import opened Prelude
  import opened Glob

  datatype Entry = Entry(id: string, spiffeId: string, attestor: string, selectors: seq<string>, ttl: Int64)

  type Claims = map<string, string>

  // ---- Go's string order -----------------------------------------------------------------------

  /** a < b, character by character. */
  predicate Less(a: string, b: string)
    decreases |b|
  {
    b != "" && (a == "" || a[0] < b[0] || (a[0] == b[0] && Less(a[1..], b[1..])))
  }

  lemma {:induction false} LessIsTotal(a: string, b: string)
    ensures a == b || Less(a, b) || Less(b, a)
    ensures !(Less(a, b) && (a == b || Less(b, a)))
    decreases |b|
  {
    if a == "" || b == "" || a[0] != b[0] {
    } else {
      LessIsTotal(a[1..], b[1..]);
      assert a == [a[0]] + a[1..] && b == [b[0]] + b[1..];
    }
  }

  lemma {:induction false} LessIsTransitive(a: string, b: string, c: string)
    requires Less(a, b) && Less(b, c)
    ensures Less(a, c)
    decreases |c|
  {
    if a == "" || !(a[0] == b[0] == c[0]) {
    } else {
      LessIsTransitive(a[1..], b[1..], c[1..]);
    }
  }

  /** The order is lexicographic: a proper prefix, or a smaller character at the first difference. */
  lemma {:induction false} LessMeaning(a: string, b: string, k: nat)
    requires k <= |a| && k <= |b| && a[..k] == b[..k]
    ensures k == |a| ==> (Less(a, b) <==> |a| < |b|)
    ensures k < |a| && k < |b| && a[k] != b[k] ==> (Less(a, b) <==> a[k] < b[k])
    decreases k
  {
    if k == 0 {
    } else {
      assert a[..k][0] == a[0] && b[..k][0] == b[0];
      assert a[1..][..k - 1] == a[..k][1..] && b[1..][..k - 1] == b[..k][1..];
      LessMeaning(a[1..], b[1..], k - 1);
    }
  }

  // ---- Selectors -------------------------------------------------------------------------------

  /** strings.Cut at the first colon: None when there is none. */
  function Cut(s: string): Option<(string, string)>
  {
    if s == "" then None
    else if s[0] == ':' then Some(("", s[1..]))
    else
      match Cut(s[1..])
      case None => None
      case Some((before, after)) => Some(([s[0]] + before, after))
  }

  /** Cut splits at the first colon and loses nothing. */
  lemma {:induction false} CutMeaning(s: string)
    ensures Cut(s).None? <==> forall i :: 0 <= i < |s| ==> s[i] != ':'
    ensures Cut(s).Some? ==>
              var (before, after) := Cut(s).value;
              s == before + ":" + after && forall i :: 0 <= i < |before| ==> before[i] != ':'
  {
    if s == "" || s[0] == ':' {
    } else {
      CutMeaning(s[1..]);
      assert s == [s[0]] + s[1..];
    }
  }

  /** A selector "key:glob" holds of claims that have the key with a value the glob matches; one
      without a colon or with a malformed glob holds of nothing. */
  predicate SelectorHolds(selector: string, claims: Claims)
  {
    match Cut(selector)
    case None => false
    case Some((key, glob)) => key in claims && PathMatch(glob, claims[key]) == Matched
  }

  lemma {:induction false} CutAtColon(key: string, glob: string)
    requires forall i :: 0 <= i < |key| ==> key[i] != ':'
    ensures Cut(key + ":" + glob) == Some((key, glob))
    decreases |key|
  {
    if key == "" {
      assert key + ":" + glob == ":" + glob && (":" + glob)[1..] == glob;
    } else {
      assert (key + ":" + glob)[1..] == key[1..] + ":" + glob;
      CutAtColon(key[1..], glob);
      assert [key[0]] + key[1..] == key;
    }
  }

  /** What one selector says: that the key is claimed, with a value that the glob's terms scan. A selector
      without a colon says nothing that could hold. */
  lemma SelectorMeaning(key: string, glob: string, claims: Claims)
    requires forall i :: 0 <= i < |key| ==> key[i] != ':'
    ensures !SelectorHolds(key, claims)
    ensures SelectorHolds(key + ":" + glob, claims)
       <==> key in claims && Parse(glob).Some? && Scan(Parse(glob).value, claims[key])
  {
    CutMeaning(key);
    CutAtColon(key, glob);
  }

  /** So a plain glob asks for exactly that value, and with a final star for it and a slash-free rest. */
  lemma PlainSelectorMeaning(key: string, p: string, claims: Claims)
    requires (forall i :: 0 <= i < |key| ==> key[i] != ':') && Plain(p)
    ensures SelectorHolds(key + ":" + p, claims) <==> key in claims && claims[key] == p
    ensures SelectorHolds(key + ":" + (p + "*"), claims)
       <==> key in claims && p <= claims[key] && SlashFree(claims[key][|p|..])
  {
    CutAtColon(key, p);
    CutAtColon(key, p + "*");
    if key in claims {
      PrefixGlobScope(p, claims[key]);
    }
  }

  predicate SelectorsHold(selectors: seq<string>, claims: Claims)
  {
    forall i :: 0 <= i < |selectors| ==> SelectorHolds(selectors[i], claims)
  }

  predicate Eligible(e: Entry, attestor: string, claims: Claims)
  {
    e.attestor == attestor && SelectorsHold(e.selectors, claims)
  }

  /** More selectors win; at equal numbers the smaller ID wins. */
  predicate Better(e: Entry, f: Entry)
  {
    |e.selectors| > |f.selectors| || (|e.selectors| == |f.selectors| && Less(e.id, f.id))
  }

  lemma BetterIsStrictOrder(e: Entry, f: Entry, g: Entry)
    ensures Better(e, f) && Better(f, g) ==> Better(e, g)
    ensures !(Better(e, f) && Better(f, e)) && !Better(e, e)
    ensures e.id != f.id ==> Better(e, f) || Better(f, e)
  {
    LessIsTotal(e.id, f.id);
    LessIsTotal(e.id, e.id);
    if Less(e.id, f.id) && Less(f.id, g.id) {
      LessIsTransitive(e.id, f.id, g.id);
    }
  }

  // ---- The winner ------------------------------------------------------------------------------

  ghost predicate DistinctIds(pool: set<Entry>)
  {
    forall e <- pool, f <- pool :: e.id == f.id ==> e == f
  }

  /** An eligible entry that beats every other eligible entry. */
  ghost predicate IsBest(e: Entry, pool: set<Entry>, attestor: string, claims: Claims)
  {
    && e in pool && Eligible(e, attestor, claims)
    && forall f <- pool :: f != e && Eligible(f, attestor, claims) ==> Better(e, f)
  }

  ghost predicate AnyEligible(pool: set<Entry>, attestor: string, claims: Claims)
  {
    exists e <- pool :: Eligible(e, attestor, claims)
  }

  /** The entry a pool selects, in no particular order of enumeration. */
  ghost function Winner(pool: set<Entry>, attestor: string, claims: Claims): Option<Entry>
  {
    if e :| IsBest(e, pool, attestor, claims) then Some(e) else None
  }

  lemma {:induction false} BestExists(pool: set<Entry>, attestor: string, claims: Claims) returns (best: Entry)
    requires DistinctIds(pool) && AnyEligible(pool, attestor, claims)
    ensures IsBest(best, pool, attestor, claims)
    decreases |pool|
  {
    var e :| e in pool && Eligible(e, attestor, claims);
    var rest := pool - {e};
    best := e;
    if !AnyEligible(rest, attestor, claims) {
    } else {
      var b := BestExists(rest, attestor, claims);
      if Better(b, e) {
        best := b;
      }
      forall f <- pool | f != best && Eligible(f, attestor, claims) ensures Better(best, f) {
        BetterIsStrictOrder(b, e, f);
        BetterIsStrictOrder(e, b, f);
      }
    }
  }

  /** Winner is the greatest eligible entry of a strict total order, and exists if any is eligible. */
  lemma WinnerMeaning(pool: set<Entry>, attestor: string, claims: Claims)
    requires DistinctIds(pool)
    ensures Winner(pool, attestor, claims).None? <==> !AnyEligible(pool, attestor, claims)
    ensures forall e :: Winner(pool, attestor, claims) == Some(e) <==> IsBest(e, pool, attestor, claims)
  {
    if AnyEligible(pool, attestor, claims) {
      var best := BestExists(pool, attestor, claims);
      forall e | IsBest(e, pool, attestor, claims) ensures e == best {
        BetterIsStrictOrder(e, best, e);
      }
    }
  }

  /** The winner is for the attestor, all its selectors hold, and every other entry of which that is true
      has fewer selectors, or as many and a greater ID. */
  lemma WinnerOutranks(pool: set<Entry>, attestor: string, claims: Claims, e: Entry)
    requires DistinctIds(pool)
    ensures Winner(pool, attestor, claims) == Some(e) <==>
            && e in pool && e.attestor == attestor && (forall s <- e.selectors :: SelectorHolds(s, claims))
            && forall f <- pool :: f != e && f.attestor == attestor && SelectorsHold(f.selectors, claims) ==>
                 || |f.selectors| < |e.selectors|
                 || (|f.selectors| == |e.selectors| && e.id != f.id && Less(e.id, f.id))
  {
    WinnerMeaning(pool, attestor, claims);
    assert forall s <- e.selectors :: exists i :: 0 <= i < |e.selectors| && e.selectors[i] == s;
    forall f: Entry ensures Less(e.id, f.id) ==> e.id != f.id {
      LessIsTotal(e.id, f.id);
    }
  }

  // ---- The scan --------------------------------------------------------------------------------

  method AllSelectorsMatch(selectors: seq<string>, claims: Claims) returns (all: bool)
    ensures all == SelectorsHold(selectors, claims)
    ensures all <==> forall s <- selectors :: SelectorHolds(s, claims)
  {
    for i := 0 to |selectors|
      invariant SelectorsHold(selectors[..i], claims)
    {
      var cut := Cut(selectors[i]);
      if cut.None? {
        return false;
      }
      var (key, glob) := cut.value;
      if key !in claims {
        return false;
      }
      if PathMatch(glob, claims[key]) != Matched {
        return false;
      }
    }
    return true;
  }

  /** The first entry of the list that no eligible entry beats: earlier ones are beaten by it. This
      determines the result for every list, repeated IDs included. */
  ghost predicate IsScanResult(best: Option<Entry>, entries: seq<Entry>, attestor: string, claims: Claims)
  {
    if best.None? then forall i :: 0 <= i < |entries| ==> !Eligible(entries[i], attestor, claims)
    else
      exists k :: && 0 <= k < |entries| && entries[k] == best.value && Eligible(entries[k], attestor, claims)
                  && (forall i :: 0 <= i < k && Eligible(entries[i], attestor, claims) ==>
                        Better(entries[k], entries[i]))
                  && (forall i :: k < i < |entries| && Eligible(entries[i], attestor, claims) ==>
                        !Better(entries[i], entries[k]))
  }

  ghost function Pool(entries: seq<Entry>): set<Entry> { set e | e in entries }

  method MatchEntries(entries: seq<Entry>, attestor: string, claims: Claims) returns (best: Option<Entry>)
    ensures IsScanResult(best, entries, attestor, claims)
    ensures DistinctIds(Pool(entries)) ==> best == Winner(Pool(entries), attestor, claims)
    ensures best.Some? ==> best.value in entries && best.value.attestor == attestor
    ensures best.Some? ==>
              forall i :: 0 <= i < |best.value.selectors| ==> SelectorHolds(best.value.selectors[i], claims)
    ensures best.None? ==> forall e <- entries ::
                e.attestor == attestor ==> exists i :: 0 <= i < |e.selectors| && !SelectorHolds(e.selectors[i], claims)
  {
    best := None;
    ghost var k := 0;
    for i := 0 to |entries|
      invariant best.None? ==> forall j :: 0 <= j < i ==> !Eligible(entries[j], attestor, claims)
      invariant best.Some? ==> 0 <= k < i && entries[k] == best.value && Eligible(entries[k], attestor, claims)
      invariant best.Some? ==>
                  forall j :: 0 <= j < k && Eligible(entries[j], attestor, claims) ==> Better(entries[k], entries[j])
      invariant best.Some? ==>
                  forall j :: k < j < i && Eligible(entries[j], attestor, claims) ==> !Better(entries[j], entries[k])
    {
      var e := entries[i];
      if e.attestor != attestor {
        continue;
      }
      var all := AllSelectorsMatch(e.selectors, claims);
      if !all {
        continue;
      }
      if best.None? || |e.selectors| > |best.value.selectors|
         || (|e.selectors| == |best.value.selectors| && Less(e.id, best.value.id)) {
        if best.Some? {
          forall j | 0 <= j < i && Eligible(entries[j], attestor, claims) ensures Better(e, entries[j]) {
            BetterIsStrictOrder(entries[k], entries[j], entries[j]);
            ScanAdvances(e, entries[k], entries[j]);
          }
        }
        best := Some(e);
        k := i;
      }
    }
    if DistinctIds(Pool(entries)) {
      ScanFindsWinner(best, entries, attestor, claims);
    }
  }

  lemma ScanAdvances(e: Entry, best: Entry, f: Entry)
    requires Better(e, best) && !Better(f, best)
    ensures Better(e, f)
  {
    BetterIsStrictOrder(e, best, f);
    LessIsTotal(f.id, best.id);
    if Less(e.id, best.id) && Less(best.id, f.id) {
      LessIsTransitive(e.id, best.id, f.id);
    }
  }

  lemma ScanFindsWinner(best: Option<Entry>, entries: seq<Entry>, attestor: string, claims: Claims)
    requires DistinctIds(Pool(entries)) && IsScanResult(best, entries, attestor, claims)
    ensures best == Winner(Pool(entries), attestor, claims)
  {
    WinnerMeaning(Pool(entries), attestor, claims);
    if best.Some? {
      forall f <- Pool(entries) | f != best.value && Eligible(f, attestor, claims) ensures Better(best.value, f) {
        BetterIsStrictOrder(best.value, f, f);
      }
    }
  }

  /** Enumeration independence: however a pool with distinct IDs is listed, and however often an
      entry is repeated, the scan returns the same entry. */
  lemma EnumerationIndependence(
    first: seq<Entry>, second: seq<Entry>, b1: Option<Entry>, b2: Option<Entry>, attestor: string, claims: Claims)
    requires Pool(first) == Pool(second) && DistinctIds(Pool(first))
    requires IsScanResult(b1, first, attestor, claims) && IsScanResult(b2, second, attestor, claims)
    ensures b1 == b2
  {
    ScanFindsWinner(b1, first, attestor, claims);
    ScanFindsWinner(b2, second, attestor, claims);
  }

  /** The scan's result on some listing of the pool. */
  ghost predicate ScannedFrom(best: Option<Entry>, pool: set<Entry>, attestor: string, claims: Claims)
  {
    exists listing :: Pool(listing) == pool && IsScanResult(best, listing, attestor, claims)
  }

  lemma ScanOfPoolFindsWinner(best: Option<Entry>, pool: set<Entry>, attestor: string, claims: Claims)
    requires DistinctIds(pool) && ScannedFrom(best, pool, attestor, claims)
    ensures best == Winner(pool, attestor, claims)
  {
    var listing :| Pool(listing) == pool && IsScanResult(best, listing, attestor, claims);
    ScanFindsWinner(best, listing, attestor, claims);
  }

  // ---- Stability under edits -------------------------------------------------------------------

  ghost function RowsOf(pool: set<Entry>, attestor: string): set<Entry>
  {
    set e | e in pool && e.attestor == attestor
  }

  /** Rows of other attestors never matter, so a backend may leave them out. */
  lemma FilterByAttestor(pool: set<Entry>, attestor: string, claims: Claims)
    requires DistinctIds(pool)
    ensures Winner(RowsOf(pool, attestor), attestor, claims) == Winner(pool, attestor, claims)
  {
    var rows := RowsOf(pool, attestor);
    WinnerMeaning(pool, attestor, claims);
    WinnerMeaning(rows, attestor, claims);
    assert forall e :: IsBest(e, rows, attestor, claims) <==> IsBest(e, pool, attestor, claims);
  }

  /** Adding an entry changes the winner only to that entry, and exactly when it is eligible and
      beats the winner so far. */
  lemma AddingAnEntry(pool: set<Entry>, e: Entry, attestor: string, claims: Claims)
    requires DistinctIds(pool + {e}) && e !in pool
    ensures
      var before := Winner(pool, attestor, claims);
      Winner(pool + {e}, attestor, claims)
      == if Eligible(e, attestor, claims) && (before.None? || Better(e, before.value)) then Some(e) else before
  {
    WinnerMeaning(pool, attestor, claims);
    WinnerMeaning(pool + {e}, attestor, claims);
    var before, after := Winner(pool, attestor, claims), Winner(pool + {e}, attestor, claims);
    assert e in pool + {e};
    if before.Some? {
      var b := before.value;
      BetterIsStrictOrder(e, b, e);
      if Eligible(e, attestor, claims) && Better(e, b) {
        forall f <- pool + {e} | f != e && Eligible(f, attestor, claims) ensures Better(e, f) {
          BetterIsStrictOrder(e, b, f);
        }
        assert IsBest(e, pool + {e}, attestor, claims);
      } else {
        assert IsBest(b, pool + {e}, attestor, claims);
      }
    } else if Eligible(e, attestor, claims) {
      assert IsBest(e, pool + {e}, attestor, claims);
    }
  }

  /** Deleting an entry that did not win never changes the winner. */
  lemma DeletingALoser(pool: set<Entry>, e: Entry, attestor: string, claims: Claims)
    requires DistinctIds(pool) && Winner(pool, attestor, claims) != Some(e)
    ensures Winner(pool - {e}, attestor, claims) == Winner(pool, attestor, claims)
  {
    WinnerMeaning(pool, attestor, claims);
    WinnerMeaning(pool - {e}, attestor, claims);
    if Winner(pool, attestor, claims).Some? {
      assert IsBest(Winner(pool, attestor, claims).value, pool - {e}, attestor, claims);
    }
  }

  /** Giving an entry more selectors only shrinks what it matches and only raises its rank. */
  lemma ExtendingSelectors(e: Entry, more: seq<string>, attestor: string, claims: Claims)
    ensures var longer := e.(selectors := e.selectors + more);
      && (Eligible(longer, attestor, claims) ==> Eligible(e, attestor, claims))
      && (Eligible(e, attestor, claims) && SelectorsHold(more, claims) ==> Eligible(longer, attestor, claims))
      && forall f :: Better(e, f) ==> Better(longer, f)
  {
    var longer := e.(selectors := e.selectors + more);
    if Eligible(longer, attestor, claims) {
      forall i | 0 <= i < |e.selectors| ensures SelectorHolds(e.selectors[i], claims) {
        assert longer.selectors[i] == e.selectors[i];
      }
    }
  }

  /** So a winner that still matches with more selectors still wins. */
  lemma ExtendedWinnerStillWins(pool: set<Entry>, e: Entry, more: seq<string>, attestor: string, claims: Claims)
    requires DistinctIds(pool) && Winner(pool, attestor, claims) == Some(e)
    ensures var longer := e.(selectors := e.selectors + more);
      Eligible(longer, attestor, claims) ==> Winner(pool - {e} + {longer}, attestor, claims) == Some(longer)
  {
    var longer := e.(selectors := e.selectors + more);
    var edited := pool - {e} + {longer};
    WinnerMeaning(pool, attestor, claims);
    WinnerMeaning(edited, attestor, claims);
    ExtendingSelectors(e, more, attestor, claims);
    if Eligible(longer, attestor, claims) {
      assert longer in edited;
      assert IsBest(longer, edited, attestor, claims);
    }
  }
}
