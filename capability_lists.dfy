/**
 * Derivations over a profile's capability list shared by the data layer,
 * the listing endpoint and the agent card: the public capabilities, the
 * set of categories they cover, and those categories listed once each in
 * order of first appearance (`[...new Set(...)]`).
 */
module CapabilityLists {
  import opened Types

  /** `caps.filter(c => c.isPublic)`. */
  function PublicCaps(caps: seq<Capability>): (r: seq<Capability>)
    ensures |r| <= |caps|
    ensures forall c :: c in r <==> c in caps && c.isPublic
  {
    if caps == [] then []
    else (if caps[0].isPublic then [caps[0]] else []) + PublicCaps(caps[1..])
  }

  /** Filtering distributes over concatenation: the kept capabilities stay in their order. */
  lemma {:induction false} PublicCapsAppend(a: seq<Capability>, b: seq<Capability>)
    ensures PublicCaps(a + b) == PublicCaps(a) + PublicCaps(b)
    decreases |a|
  {
    if a != [] {
      assert (a + b)[1..] == a[1..] + b;
      PublicCapsAppend(a[1..], b);
    } else {
      assert a + b == b;
    }
  }

  /** The categories of the public capabilities. */
  function PublicCategories(caps: seq<Capability>): (r: set<CategoryId>)
    ensures forall c :: c in caps && c.isPublic ==> c.category in r
  {
    if caps == [] then {}
    else (if caps[0].isPublic then {caps[0].category} else {}) + PublicCategories(caps[1..])
  }

  lemma {:induction false} PublicCategoriesAppend(caps: seq<Capability>, c: Capability)
    ensures PublicCategories(caps + [c]) == PublicCategories(caps) + (if c.isPublic then {c.category} else {})
    decreases |caps|
  {
    if caps == [] {
      assert caps + [c] == [c];
    } else {
      assert (caps + [c])[1..] == caps[1..] + [c];
      PublicCategoriesAppend(caps[1..], c);
    }
  }

  /** `caps.map(c => c.category)`. */
  function Categories(caps: seq<Capability>): (r: seq<CategoryId>)
    ensures |r| == |caps|
    ensures forall i :: 0 <= i < |caps| ==> r[i] == caps[i].category
  {
    seq(|caps|, i requires 0 <= i < |caps| => caps[i].category)
  }

  /** `[...new Set(xs)]`: each value once, where it first appears. */
  function Dedupe(xs: seq<CategoryId>): (r: seq<CategoryId>)
    ensures forall x :: x in r <==> x in xs
    ensures forall i, j :: 0 <= i < j < |r| ==> r[i] != r[j]
  {
    if xs == [] then []
    else
      var d := Dedupe(xs[..|xs| - 1]);
      var x := xs[|xs| - 1];
      assert forall y :: y in xs <==> y in xs[..|xs| - 1] || y == x by {
        assert xs == xs[..|xs| - 1] + [x];
      }
      if x in d then d else d + [x]
  }

  /** The index at which `x` first appears in `xs`. */
  function FirstIndex(xs: seq<CategoryId>, x: CategoryId): (k: nat)
    requires x in xs
    ensures k < |xs| && xs[k] == x
    ensures forall i :: 0 <= i < k ==> xs[i] != x
  {
    if xs[0] == x then 0 else 1 + FirstIndex(xs[1..], x)
  }

  lemma FirstIndexPrefix(xs: seq<CategoryId>, n: nat, x: CategoryId)
    requires n <= |xs| && x in xs[..n]
    ensures x in xs && FirstIndex(xs, x) == FirstIndex(xs[..n], x)
  {
    var k := FirstIndex(xs[..n], x);
    assert xs[k] == x;
  }

  /** The deduplicated values keep the order of their first appearances. */
  lemma {:induction false} DedupeFirstOccurrenceOrder(xs: seq<CategoryId>, i: nat, j: nat)
    requires i < j < |Dedupe(xs)|
    ensures FirstIndex(xs, Dedupe(xs)[i]) < FirstIndex(xs, Dedupe(xs)[j])
    decreases |xs|
  {
    var n := |xs| - 1;
    var init := xs[..n];
    var d := Dedupe(init);
    var r := Dedupe(xs);
    var x := xs[n];
    if j < |d| {
      assert r[i] == d[i] && r[j] == d[j];
      DedupeFirstOccurrenceOrder(init, i, j);
      FirstIndexPrefix(xs, n, d[i]);
      FirstIndexPrefix(xs, n, d[j]);
    } else {
      assert x !in d && r[j] == x && r[i] == d[i];
      assert x !in init;
      FirstIndexPrefix(xs, n, d[i]);
      assert FirstIndex(xs, x) == n;
    }
  }

  /** A category is a public category exactly when some public capability is in it. */
  lemma {:induction false} PublicCategoriesMembers(caps: seq<Capability>, c: CategoryId)
    ensures c in PublicCategories(caps) <==> exists x :: x in caps && x.isPublic && x.category == c
    decreases |caps|
  {
    if caps != [] {
      PublicCategoriesMembers(caps[1..], c);
      assert forall x :: x in caps <==> x == caps[0] || x in caps[1..];
    }
  }

  /** Listing the public capabilities' categories gives exactly the public categories. */
  lemma CategoriesOfPublicCaps(caps: seq<Capability>)
    ensures forall c :: c in Categories(PublicCaps(caps)) <==> c in PublicCategories(caps)
  {
    var r := PublicCaps(caps);
    forall c ensures c in Categories(r) <==> c in PublicCategories(caps) {
      PublicCategoriesMembers(caps, c);
      if c in Categories(r) {
        var i :| 0 <= i < |r| && Categories(r)[i] == c;
        assert r[i] in caps;
      }
      if c in PublicCategories(caps) {
        var x :| x in caps && x.isPublic && x.category == c;
        assert x in r;
        var i :| 0 <= i < |r| && r[i] == x;
        assert Categories(r)[i] == c;
      }
    }
  }

  /** The distinct categories of the public capabilities, in first-occurrence order. */
  function UniqueCategories(caps: seq<Capability>): (r: seq<CategoryId>)
    ensures forall c :: c in r <==> c in PublicCategories(caps)
  {
    CategoriesOfPublicCaps(caps);
    Dedupe(Categories(PublicCaps(caps)))
  }
}
