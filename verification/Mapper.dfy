/** internal/mapper/mapper.go: deriving a SPIFFE ID from claims. */
module Mapper {
  import opened Matcher
  import opened Glob

  // ---- Sorted keys -----------------------------------------------------------------------------

  ghost predicate Increasing(s: seq<string>)
  {
    forall i, j :: 0 <= i < j < |s| ==> Less(s[i], s[j])
  }

  ghost predicate Lists(s: seq<string>, keys: set<string>)
  {
    forall k :: k in s <==> k in keys
  }

  /** Insertion into a sorted list, the step of a sort. */
  function Insert(k: string, s: seq<string>): seq<string>
  {
    if s == [] || !Less(s[0], k) then [k] + s else [s[0]] + Insert(k, s[1..])
  }

  /** sort.Strings. */
  function Sort(s: seq<string>): seq<string>
  {
    if s == [] then [] else Insert(s[0], Sort(s[1..]))
  }

  lemma {:induction false} InsertSorts(k: string, s: seq<string>)
    requires Increasing(s) && k !in s
    ensures Increasing(Insert(k, s))
    ensures forall x :: x in Insert(k, s) <==> x == k || x in s
    decreases |s|
  {
    if s == [] {
    } else if Less(s[0], k) {
      InsertSorts(k, s[1..]);
      assert s == [s[0]] + s[1..];
      var rest := Insert(k, s[1..]);
      forall i | 0 <= i < |rest| ensures Less(s[0], rest[i]) {
        assert rest[i] in rest;
      }
    } else {
      LessIsTotal(k, s[0]);
      forall i | 0 <= i < |s| ensures Less(k, s[i]) {
        if i > 0 { LessIsTransitive(k, s[0], s[i]); }
      }
    }
  }

  lemma {:induction false} SortSorts(s: seq<string>)
    requires forall i, j :: 0 <= i < j < |s| ==> s[i] != s[j]
    ensures Increasing(Sort(s))
    ensures forall x :: x in Sort(s) <==> x in s
    decreases |s|
  {
    if s == [] {
    } else {
      SortSorts(s[1..]);
      assert s == [s[0]] + s[1..];
      InsertSorts(s[0], Sort(s[1..]));
    }
  }

  /** A set of strings has exactly one increasing listing. */
  lemma {:induction false} IncreasingListingUnique(s: seq<string>, t: seq<string>)
    requires Increasing(s) && Increasing(t) && forall x :: x in s <==> x in t
    ensures s == t
    decreases |s|
  {
    assert t != [] ==> t[0] in t;
    if s == [] {
    } else {
      assert s[0] in t;
      HeadIsLeast(s, t[0]);
      HeadIsLeast(t, s[0]);
      LessIsTotal(s[0], t[0]);
      assert s == [s[0]] + s[1..] && t == [t[0]] + t[1..];
      HeadNotRepeated(s);
      HeadNotRepeated(t);
      assert forall x :: x in s <==> x == s[0] || x in s[1..];
      assert forall x :: x in t <==> x == s[0] || x in t[1..];
      IncreasingListingUnique(s[1..], t[1..]);
    }
  }

  lemma HeadNotRepeated(s: seq<string>)
    requires Increasing(s) && s != []
    ensures s[0] !in s[1..]
  {
    LessIsTotal(s[0], s[0]);
    forall i | 0 <= i < |s[1..]| ensures s[1..][i] != s[0] {
      assert Less(s[0], s[i + 1]);
    }
  }

  lemma HeadIsLeast(s: seq<string>, x: string)
    requires Increasing(s) && x in s
    ensures x == s[0] || Less(s[0], x)
  {
  }

  // ---- Join and split --------------------------------------------------------------------------

  function Join(parts: seq<string>): string
  {
    if parts == [] then "" else if |parts| == 1 then parts[0] else parts[0] + "/" + Join(parts[1..])
  }

  function Split(s: string): (parts: seq<string>)
    ensures parts != []
    decreases |s|
  {
    if s == "" then [""]
    else
      var rest := Split(s[1..]);
      if s[0] == '/' then [""] + rest else [[s[0]] + rest[0]] + rest[1..]
  }

  ghost predicate AllSlashFree(parts: seq<string>)
  {
    forall i :: 0 <= i < |parts| ==> SlashFree(parts[i])
  }

  lemma {:induction false} SplitIsSlashFree(s: string)
    ensures AllSlashFree(Split(s))
    decreases |s|
  {
    if s == "" {
    } else {
      SplitIsSlashFree(s[1..]);
    }
  }

  lemma {:induction false} SplitCons(p: string, s: string)
    requires SlashFree(p)
    ensures Split(p) == [p] && Split(p + "/" + s) == [p] + Split(s)
    decreases |p|
  {
    if p == "" {
      assert p + "/" + s == "/" + s && ("/" + s)[1..] == s;
    } else {
      assert (p + "/" + s)[1..] == p[1..] + "/" + s;
      SplitCons(p[1..], s);
      assert [p[0]] + p[1..] == p;
    }
  }

  /** Splitting undoes joining exactly for nonempty lists of slash-free parts. */
  lemma {:induction false} SplitJoin(parts: seq<string>)
    ensures Split(Join(parts)) == parts <==> parts != [] && AllSlashFree(parts)
    decreases |parts|
  {
    SplitIsSlashFree(Join(parts));
    if parts != [] && AllSlashFree(parts) {
      if |parts| > 1 {
        SplitJoin(parts[1..]);
        SplitCons(parts[0], Join(parts[1..]));
      } else {
        SplitCons(parts[0], "");
      }
    }
  }

  // ---- Derived IDs -----------------------------------------------------------------------------

  function ValuesAt(claims: Claims, keys: seq<string>): (values: seq<string>)
    requires forall i :: 0 <= i < |keys| ==> keys[i] in claims
    ensures |values| == |keys| && forall i :: 0 <= i < |keys| ==> values[i] == claims[keys[i]]
  {
    seq(|keys|, i requires 0 <= i < |keys| => claims[keys[i]])
  }

  const SCHEME := "spiffe://"

  /** What follows the scheme of a derived ID. */
  function Rest(trustDomain: string, attestor: string, values: seq<string>): string
  {
    trustDomain + "/" + (attestor + "/" + Join(values))
  }

  function Render(trustDomain: string, attestor: string, values: seq<string>): string
  {
    SCHEME + Rest(trustDomain, attestor, values)
  }

  /** The ID is the rendering of the claim values along some increasing listing of the keys. */
  ghost predicate IsDerived(id: string, trustDomain: string, attestor: string, claims: Claims)
  {
    exists keys :: IsKeyOrder(keys, claims) && id == Render(trustDomain, attestor, ValuesAt(claims, keys))
  }

  ghost predicate IsKeyOrder(keys: seq<string>, claims: Claims)
    ensures IsKeyOrder(keys, claims) ==> forall i :: 0 <= i < |keys| ==> keys[i] in claims
  {
    Increasing(keys) && Lists(keys, claims.Keys)
  }

  /** The keys, in the arbitrary order of map iteration. */
  method ListKeys(claims: Claims) returns (keys: seq<string>)
    ensures Lists(keys, claims.Keys) && forall i, j :: 0 <= i < j < |keys| ==> keys[i] != keys[j]
  {
    keys := [];
    var todo := claims.Keys;
    while todo != {}
      invariant todo <= claims.Keys && Lists(keys, claims.Keys - todo)
      invariant forall i, j :: 0 <= i < j < |keys| ==> keys[i] != keys[j]
      decreases |todo|
    {
      var k :| k in todo;
      keys := keys + [k];
      todo := todo - {k};
    }
  }

  /** The keys come in the arbitrary order of map iteration; the ID does not depend on it. */
  method DeriveSpiffeId(trustDomain: string, attestor: string, claims: Claims) returns (id: string)
    ensures IsDerived(id, trustDomain, attestor, claims)
    ensures "spiffe://" + trustDomain + "/" + attestor + "/" <= id
    ensures forall other :: IsDerived(other, trustDomain, attestor, claims) ==> other == id
  {
    var keys := ListKeys(claims);
    var sorted := Sort(keys);
    SortSorts(keys);
    assert IsKeyOrder(sorted, claims);
    var values: seq<string> := [];
    for i := 0 to |sorted|
      invariant values == ValuesAt(claims, sorted)[..i]
    {
      values := values + [claims[sorted[i]]];
    }
    assert values == ValuesAt(claims, sorted);
    id := "spiffe://" + trustDomain + "/" + attestor + "/" + Join(values);
    assert id == Render(trustDomain, attestor, ValuesAt(claims, sorted));
    forall other | IsDerived(other, trustDomain, attestor, claims) ensures other == id {
      DerivedUnique(other, id, trustDomain, attestor, claims);
    }
  }

  lemma DerivedUnique(id: string, other: string, trustDomain: string, attestor: string, claims: Claims)
    requires IsDerived(id, trustDomain, attestor, claims) && IsDerived(other, trustDomain, attestor, claims)
    ensures id == other
  {
    var s :| IsKeyOrder(s, claims) && id == Render(trustDomain, attestor, ValuesAt(claims, s));
    var t :| IsKeyOrder(t, claims) && other == Render(trustDomain, attestor, ValuesAt(claims, t));
    IncreasingListingUnique(s, t);
  }

  lemma SchemeSplits(rest: string)
    ensures Split("spiffe://" + rest) == ["spiffe:", ""] + Split(rest)
  {
    var tail := "/" + rest;
    SplitCons("spiffe:", tail);
    assert tail[1..] == rest && Split(tail) == [""] + Split(rest);
    assert "spiffe://" + rest == "spiffe:" + "/" + tail;
    assert ["spiffe:"] + ([""] + Split(rest)) == ["spiffe:", ""] + Split(rest);
  }

  lemma RestSplits(trustDomain: string, attestor: string, values: seq<string>)
    requires SlashFree(trustDomain) && SlashFree(attestor) && AllSlashFree(values) && values != []
    ensures Split(Rest(trustDomain, attestor, values)) == [trustDomain, attestor] + values
  {
    SplitJoin(values);
    SplitCons(attestor, Join(values));
    SplitCons(trustDomain, attestor + "/" + Join(values));
  }

  /** What a derived ID looks like: the scheme, the trust domain, the attestor, and then the values of the
      claims in the order of their keys, each a segment of its own if it is slash-free. */
  lemma DerivedSegments(id: string, trustDomain: string, attestor: string, claims: Claims, keys: seq<string>)
    requires IsDerived(id, trustDomain, attestor, claims) && claims != map[]
    requires Increasing(keys) && (forall k :: k in keys <==> k in claims)
    requires SlashFree(trustDomain) && SlashFree(attestor) && forall k <- claims :: SlashFree(claims[k])
    ensures Split(id) == ["spiffe:", ""] + ([trustDomain, attestor] + ValuesAt(claims, keys))
  {
    var order :| IsKeyOrder(order, claims) && id == Render(trustDomain, attestor, ValuesAt(claims, order));
    IncreasingListingUnique(keys, order);
    var k :| k in claims;
    assert k in keys;
    RestSplits(trustDomain, attestor, ValuesAt(claims, keys));
    SchemeSplits(Rest(trustDomain, attestor, ValuesAt(claims, keys)));
  }

  // ---- When two claim sets derive one ID ---------------------------------------------------------

  ghost predicate SlashFreeClaims(claims: Claims) { forall k <- claims :: SlashFree(claims[k]) }

  lemma RenderDeterminesRest(rest: string, other: string)
    requires SCHEME + rest == SCHEME + other
    ensures rest == other
  {
    assert (SCHEME + rest)[|SCHEME|..] == rest && (SCHEME + other)[|SCHEME|..] == other;
  }

  lemma FirstSegment(p: string, s: string, q: string, t: string)
    requires SlashFree(p) && SlashFree(q) && p + "/" + s == q + "/" + t
    ensures p == q && s == t
  {
    SplitCons(p, s);
    SplitCons(q, t);
    assert ([p] + Split(s))[0] == p && ([q] + Split(t))[0] == q;
    assert (p + "/" + s)[|p| + 1..] == s && (q + "/" + t)[|q| + 1..] == t;
  }

  /** A derived ID gives away its trust domain and attestor (neither has a slash) and the joined values. */
  lemma IdDeterminesPrefix(td1: string, td2: string, a1: string, a2: string, v: seq<string>, w: seq<string>)
    requires SlashFree(td1) && SlashFree(td2) && SlashFree(a1) && SlashFree(a2)
    requires Render(td1, a1, v) == Render(td2, a2, w)
    ensures td1 == td2 && a1 == a2 && Join(v) == Join(w)
  {
    RenderDeterminesRest(Rest(td1, a1, v), Rest(td2, a2, w));
    FirstSegment(td1, a1 + "/" + Join(v), td2, a2 + "/" + Join(w));
    FirstSegment(a1, Join(v), a2, Join(w));
  }

  /** Joining adds a slash between any two parts, and only slash-free parts have no others. */
  lemma {:induction false} JoinSlashes(parts: seq<string>)
    requires parts != []
    ensures Slashes(Join(parts)) >= |parts| - 1
    ensures Slashes(Join(parts)) == |parts| - 1 <==> AllSlashFree(parts)
    decreases |parts|
  {
    SlashesAdd(parts[0], "/");
    if |parts| == 1 {
    } else {
      JoinSlashes(parts[1..]);
      SlashesAdd(parts[0] + "/", Join(parts[1..]));
      assert "/"[1..] == "" && Slashes("/") == 1;
      assert parts == [parts[0]] + parts[1..];
    }
  }

  /** Slash-free values are told apart even from values with slashes, and a single value always is. */
  lemma JoinDetermines(v: seq<string>, w: seq<string>)
    requires |v| == |w| && Join(v) == Join(w) && (|v| < 2 || AllSlashFree(v))
    ensures v == w
  {
    if v != [] {
      JoinSlashes(v);
      JoinSlashes(w);
      if |v| == 1 {
        assert v == [v[0]] && w == [w[0]];
      } else {
        SplitJoin(v);
        SplitJoin(w);
      }
    }
  }

  lemma KeysAreDistinct(keys: seq<string>, i: nat, j: nat)
    requires Increasing(keys) && i < |keys| && j < |keys| && i != j
    ensures keys[i] != keys[j]
  {
    LessIsTotal(keys[i], keys[j]);
  }

  lemma {:induction false} KeyOrderLength(keys: seq<string>, all: set<string>)
    requires Increasing(keys) && Lists(keys, all)
    ensures |keys| == |all|
    decreases |keys|
  {
    if keys == [] {
      assert all == {};
    } else {
      HeadNotRepeated(keys);
      assert keys == [keys[0]] + keys[1..];
      KeyOrderLength(keys[1..], all - {keys[0]});
    }
  }

  lemma ValuesDetermineClaims(c1: Claims, c2: Claims, keys: seq<string>)
    requires IsKeyOrder(keys, c1) && IsKeyOrder(keys, c2) && ValuesAt(c1, keys) == ValuesAt(c2, keys)
    ensures c1 == c2
  {
    assert c1.Keys == c2.Keys;
    forall k <- c1 ensures c1[k] == c2[k] {
      var i :| 0 <= i < |keys| && keys[i] == k;
      assert ValuesAt(c1, keys)[i] == ValuesAt(c2, keys)[i];
    }
  }

  lemma ClaimsSlashFree(c: Claims, keys: seq<string>)
    requires IsKeyOrder(keys, c)
    ensures SlashFreeClaims(c) <==> AllSlashFree(ValuesAt(c, keys))
    ensures |keys| == |c|
  {
    KeyOrderLength(keys, c.Keys);
    if AllSlashFree(ValuesAt(c, keys)) {
      forall k <- c ensures SlashFree(c[k]) {
        var i :| 0 <= i < |keys| && keys[i] == k;
        assert ValuesAt(c, keys)[i] == c[k];
      }
    }
  }

  /** For one set of claim keys, an ID determines its trust domain and attestor, and its claims too if
      one of the claim sets is free of slashes or has a single key, whatever the other one holds. */
  lemma DerivationInjective(
    id: string, td1: string, td2: string, a1: string, a2: string, c1: Claims, c2: Claims)
    requires IsDerived(id, td1, a1, c1) && IsDerived(id, td2, a2, c2) && c1.Keys == c2.Keys
    requires SlashFree(td1) && SlashFree(td2) && SlashFree(a1) && SlashFree(a2)
    ensures td1 == td2 && a1 == a2
    ensures SlashFreeClaims(c1) || |c1| < 2 ==> c1 == c2
  {
    var s :| IsKeyOrder(s, c1) && id == Render(td1, a1, ValuesAt(c1, s));
    var t :| IsKeyOrder(t, c2) && id == Render(td2, a2, ValuesAt(c2, t));
    IncreasingListingUnique(s, t);
    IdDeterminesPrefix(td1, td2, a1, a2, ValuesAt(c1, s), ValuesAt(c2, s));
    ClaimsSlashFree(c1, s);
    if SlashFreeClaims(c1) || |c1| < 2 {
      JoinDetermines(ValuesAt(c1, s), ValuesAt(c2, s));
      ValuesDetermineClaims(c1, c2, s);
    }
  }

  /** Text may move across the separator between two neighbours. */
  lemma {:induction false} MoveBetweenNeighbours(v: seq<string>, i: nat, p: string, q: string)
    requires i + 1 < |v| && v[i] + "/" + v[i + 1] == p + "/" + q
    ensures Join(v[i := p][i + 1 := q]) == Join(v)
    decreases i
  {
    var w := v[i := p][i + 1 := q];
    if i > 0 {
      assert w[1..] == v[1..][i - 1 := p][i := q];
      MoveBetweenNeighbours(v[1..], i - 1, p, q);
    } else if |v| == 2 {
      assert v[1..] == [v[1]] && w[1..] == [q];
    } else {
      var rest := Join(v[2..]);
      assert v[1..][1..] == v[2..] && w[1..][1..] == v[2..];
      assert v[0] + "/" + (v[1] + "/" + rest) == v[0] + "/" + v[1] + ("/" + rest);
      assert p + "/" + (q + "/" + rest) == p + "/" + q + ("/" + rest);
    }
  }

  /** A slash in one of several values can be traded for the separator to a neighbour. */
  lemma Trade(v: seq<string>) returns (i: nat, p: string, q: string)
    requires |v| >= 2 && !AllSlashFree(v)
    ensures i + 1 < |v| && v[i] + "/" + v[i + 1] == p + "/" + q
    ensures v[i] != p || v[i + 1] != q
  {
    var j: nat :| j < |v| && !SlashFree(v[j]);
    var m: nat :| m < |v[j]| && v[j][m] == '/';
    var x, y := v[j][..m], v[j][m + 1..];
    assert v[j] == x + "/" + y;
    if j + 1 < |v| {
      i, p, q := j, x, y + "/" + v[j + 1];
      assert |p| < |v[i]|;
    } else {
      i, p, q := j - 1, v[j - 1] + "/" + x, y;
      assert |q| < |v[i + 1]|;
    }
  }

  lemma ReassignedValues(c: Claims, keys: seq<string>, i: nat, p: string, q: string) returns (d: Claims)
    requires IsKeyOrder(keys, c) && i + 1 < |keys|
    ensures IsKeyOrder(keys, d) && d.Keys == c.Keys
    ensures ValuesAt(d, keys) == ValuesAt(c, keys)[i := p][i + 1 := q]
  {
    d := c[keys[i] := p][keys[i + 1] := q];
    assert d.Keys == c.Keys;
    forall j | 0 <= j < |keys| ensures ValuesAt(d, keys)[j] == ValuesAt(c, keys)[i := p][i + 1 := q][j] {
      if j != i { KeysAreDistinct(keys, i, j); }
      if j != i + 1 { KeysAreDistinct(keys, i + 1, j); }
    }
  }

  lemma CollidingClaims(id: string, trustDomain: string, attestor: string, c: Claims) returns (d: Claims)
    requires IsDerived(id, trustDomain, attestor, c) && |c| >= 2 && !SlashFreeClaims(c)
    ensures d != c && d.Keys == c.Keys && IsDerived(id, trustDomain, attestor, d)
  {
    var s :| IsKeyOrder(s, c) && id == Render(trustDomain, attestor, ValuesAt(c, s));
    var v := ValuesAt(c, s);
    ClaimsSlashFree(c, s);
    var i, p, q := Trade(v);
    MoveBetweenNeighbours(v, i, p, q);
    d := ReassignedValues(c, s, i, p, q);
    assert v[i := p][i + 1 := q][i] == p && v[i := p][i + 1 := q][i + 1] == q;
    assert id == Render(trustDomain, attestor, ValuesAt(d, s));
  }

  /** Other claims under the same keys that derive the same ID. */
  ghost predicate Collides(id: string, trustDomain: string, attestor: string, c: Claims)
  {
    exists d: Claims :: d != c && d.Keys == c.Keys && IsDerived(id, trustDomain, attestor, d)
  }

  /** Derivation is not injective exactly where there are two or more claims and one has a slash. */
  lemma CollidesExactly(id: string, trustDomain: string, attestor: string, c: Claims)
    requires IsDerived(id, trustDomain, attestor, c)
    ensures Collides(id, trustDomain, attestor, c) <==> |c| >= 2 && !SlashFreeClaims(c)
  {
    if |c| >= 2 && !SlashFreeClaims(c) {
      var d := CollidingClaims(id, trustDomain, attestor, c);
    }
    if d: Claims :| d != c && d.Keys == c.Keys && IsDerived(id, trustDomain, attestor, d) {
      if |c| < 2 || SlashFreeClaims(c) {
        NoCollision(id, trustDomain, attestor, c, d);
        assert false;
      }
    }
  }

  lemma NoCollision(id: string, trustDomain: string, attestor: string, c: Claims, d: Claims)
    requires IsDerived(id, trustDomain, attestor, c) && IsDerived(id, trustDomain, attestor, d) && d.Keys == c.Keys
    requires |c| < 2 || SlashFreeClaims(c)
    ensures c == d
  {
    var s :| IsKeyOrder(s, c) && id == Render(trustDomain, attestor, ValuesAt(c, s));
    var t :| IsKeyOrder(t, d) && id == Render(trustDomain, attestor, ValuesAt(d, t));
    IncreasingListingUnique(s, t);
    SameJoin(trustDomain, attestor, ValuesAt(c, s), ValuesAt(d, s));
    ClaimsSlashFree(c, s);
    JoinDetermines(ValuesAt(c, s), ValuesAt(d, s));
    ValuesDetermineClaims(c, d, s);
  }

  lemma SameJoin(trustDomain: string, attestor: string, v: seq<string>, w: seq<string>)
    requires Render(trustDomain, attestor, v) == Render(trustDomain, attestor, w)
    ensures Join(v) == Join(w)
  {
    var head := SCHEME + trustDomain + "/" + attestor + "/";
    assert Render(trustDomain, attestor, v) == head + Join(v) && Render(trustDomain, attestor, w) == head + Join(w);
    assert (head + Join(v))[|head|..] == Join(v) && (head + Join(w))[|head|..] == Join(w);
  }

  /** An instance: the claims of a GitHub token, whose repository is "owner/name", always collide. */
  lemma SlashesCollide(id: string, trustDomain: string, attestor: string, c: Claims)
    requires IsDerived(id, trustDomain, attestor, c)
    requires {"github.repository", "github.repository_owner"} <= c.Keys && !SlashFree(c["github.repository"])
    ensures Collides(id, trustDomain, attestor, c)
  {
    var some := {"github.repository", "github.repository_owner"};
    assert "github.repository" != "github.repository_owner" by {
      assert |"github.repository"| != |"github.repository_owner"|;
    }
    assert c.Keys == some + (c.Keys - some) && |c| == |c.Keys|;
    CollidesExactly(id, trustDomain, attestor, c);
  }
}
