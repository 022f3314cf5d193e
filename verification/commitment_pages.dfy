/** Paged storage of commitments on chain, and the SDK's reassembly of the
    full list from inline commitments and pages. */
module CommitmentPages {
  import opened Outcomes

  const COMMITMENT_PAGE_CAPACITY := 48

  /** The default public key, which marks a page account nobody has written yet. */
  const NO_POOL: nat := 0

  datatype Page<F> = Page(pool: nat, pageIndex: nat, startOffset: nat, count: nat, commitments: seq<F>)

  function BlankEntries<F>(zero: F): (s: seq<F>)
    ensures |s| == COMMITMENT_PAGE_CAPACITY
  {
    seq(COMMITMENT_PAGE_CAPACITY, _ => zero)
  }

  /** A page account as the runtime creates it. */
  function NewPage<F>(zero: F): Page<F> {
    Page(NO_POOL, 0, 0, 0, BlankEntries(zero))
  }

  function ExpectedPageIndex(nextIndex: nat): nat {
    nextIndex / COMMITMENT_PAGE_CAPACITY
  }

  function ExpectedPageOffset(nextIndex: nat): nat {
    nextIndex % COMMITMENT_PAGE_CAPACITY
  }

  /** The first append claims a new page for the pool. */
  function Claimed<F>(zero: F, page: Page<F>, pool: nat, pageIndex: nat, offset: nat): Page<F> {
    if page.pool == NO_POOL then Page(pool, pageIndex, offset, 0, BlankEntries(zero)) else page
  }

  function AppendToPage<F>(zero: F, page: Page<F>, pool: nat, pageIndex: nat, offset: nat, c: F): Option<Page<F>>
    requires |page.commitments| == COMMITMENT_PAGE_CAPACITY
  {
    var claimed := Claimed(zero, page, pool, pageIndex, offset);
    if claimed.pool != pool then None
    else if claimed.pageIndex != pageIndex then None
    else if offset < claimed.startOffset then None
    else
      var slot := offset - claimed.startOffset;
      if slot != claimed.count then None
      else if slot >= COMMITMENT_PAGE_CAPACITY then None
      else Some(claimed.(commitments := claimed.commitments[slot := c], count := slot + 1))
  }

  /** A page account. */
  class CommitmentPage<F> {
    const zero: F
    var pool: nat
    var pageIndex: nat
    var startOffset: nat
    var count: nat
    const commitments: array<F>

    ghost predicate Valid()
      reads this
    {
      commitments.Length == COMMITMENT_PAGE_CAPACITY
    }

    ghost function Model(): Page<F>
      reads this, commitments
      requires Valid()
    {
      Page(pool, pageIndex, startOffset, count, commitments[..])
    }

    constructor (zero: F)
      ensures Valid() && fresh(commitments) && this.zero == zero
      ensures Model() == NewPage(zero)
    {
      this.zero := zero;
      pool, pageIndex, startOffset, count := NO_POOL, 0, 0, 0;
      commitments := new F[COMMITMENT_PAGE_CAPACITY](_ => zero);
    }

    method Append(pool: nat, pageIndex: nat, offset: nat, c: F) returns (ok: bool)
      requires Valid()
      requires pool != NO_POOL && offset < COMMITMENT_PAGE_CAPACITY
      modifies this, commitments
      ensures Valid()
      ensures ok == AppendToPage(zero, old(Model()), pool, pageIndex, offset, c).Some?
      ensures Model() == if ok then AppendToPage(zero, old(Model()), pool, pageIndex, offset, c).value else old(Model())
    {
      if this.pool == NO_POOL {
        this.pool := pool;
        this.pageIndex := pageIndex;
        this.startOffset := offset;
        this.count := 0;
        forall i | 0 <= i < COMMITMENT_PAGE_CAPACITY {
          commitments[i] := zero;
        }
        assert commitments[..] == BlankEntries(zero);
      }
      if this.pool != pool || this.pageIndex != pageIndex || offset < startOffset {
        return false;
      }
      var slot := offset - startOffset;
      if slot != count || slot >= COMMITMENT_PAGE_CAPACITY {
        return false;
      }
      commitments[slot] := c;
      count := count + 1;
      return true;
    }
  }

  /** One append to the pages of a pool; an absent page is created. */
  function AppendToPages<F>(zero: F, pages: map<nat, Page<F>>, pool: nat, nextIndex: nat, pageIndex: nat, c: F): Option<map<nat, Page<F>>>
    requires forall p <- pages :: |pages[p].commitments| == COMMITMENT_PAGE_CAPACITY
  {
    if pageIndex != ExpectedPageIndex(nextIndex) then None
    else
      var page := if pageIndex in pages then pages[pageIndex] else NewPage(zero);
      match AppendToPage(zero, page, pool, pageIndex, ExpectedPageOffset(nextIndex), c)
      case None => None
      case Some(next) => Some(pages[pageIndex := next])
  }

  // ---------- what the pages hold ----------

  function Max(a: nat, b: nat): nat { if a < b then b else a }
  function Min(a: nat, b: nat): nat { if a < b then a else b }

  /** The first leaf stored on page p when the first `inlined` leaves are not paged. */
  function FirstOn(p: nat, inlined: nat): nat {
    Max(COMMITMENT_PAGE_CAPACITY * p, inlined)
  }

  /** One past the last leaf stored on page p. */
  function EndOn(p: nat, total: nat): nat {
    Min(COMMITMENT_PAGE_CAPACITY * (p + 1), total)
  }

  ghost predicate StoresOn<F>(pool: nat, page: Page<F>, p: nat, inlined: nat, leaves: seq<F>) {
    var first := FirstOn(p, inlined);
    && page.pool == pool
    && page.pageIndex == p
    && |page.commitments| == COMMITMENT_PAGE_CAPACITY
    && page.startOffset == first - COMMITMENT_PAGE_CAPACITY * p
    && page.count == EndOn(p, |leaves|) - first
    && page.startOffset + page.count <= COMMITMENT_PAGE_CAPACITY
    && forall j :: 0 <= j < page.count ==> page.commitments[j] == leaves[first + j]
  }

  /** The pages hold exactly the leaves from `inlined` on. */
  ghost predicate Stores<F>(pool: nat, pages: map<nat, Page<F>>, inlined: nat, leaves: seq<F>) {
    && inlined <= |leaves|
    && (forall p: nat :: p in pages <==> FirstOn(p, inlined) < EndOn(p, |leaves|))
    && (forall p <- pages :: StoresOn(pool, pages[p], p, inlined, leaves))
  }

  lemma NoPagesYet<F>(pool: nat, leaves: seq<F>)
    ensures Stores(pool, map[], |leaves|, leaves)
  {
  }

  /** The append to the expected page. */
  lemma AppendStoresOnPage<F>(zero: F, pages: map<nat, Page<F>>, pool: nat, inlined: nat, leaves: seq<F>, c: F)
    requires pool != NO_POOL
    requires Stores(pool, pages, inlined, leaves)
    ensures var q := ExpectedPageIndex(|leaves|);
            var r := AppendToPages(zero, pages, pool, |leaves|, q, c);
            && r.Some?
            && r.value.Keys == pages.Keys + {q}
            && (forall p <- pages :: p != q ==> r.value[p] == pages[p])
            && StoresOn(pool, r.value[q], q, inlined, leaves + [c])
  {
    var n := |leaves|;
    var q := ExpectedPageIndex(n);
    assert COMMITMENT_PAGE_CAPACITY * q <= n < COMMITMENT_PAGE_CAPACITY * (q + 1);
    assert FirstOn(q, inlined) <= n && EndOn(q, n) == n;
    if q in pages {
      assert StoresOn(pool, pages[q], q, inlined, leaves);
    } else {
      assert FirstOn(q, inlined) == n;
    }
  }

  /** An append to the expected page always succeeds and stores the leaf;
      one to any other page is refused. */
  lemma AppendStores<F>(zero: F, pages: map<nat, Page<F>>, pool: nat, inlined: nat, leaves: seq<F>, pageIndex: nat, c: F)
    requires pool != NO_POOL
    requires Stores(pool, pages, inlined, leaves)
    ensures var r := AppendToPages(zero, pages, pool, |leaves|, pageIndex, c);
            && (r.Some? <==> pageIndex == |leaves| / COMMITMENT_PAGE_CAPACITY)
            && (r.Some? ==> Stores(pool, r.value, inlined, leaves + [c]))
  {
    var n := |leaves|;
    var q := ExpectedPageIndex(n);
    if pageIndex == q {
      AppendStoresOnPage(zero, pages, pool, inlined, leaves, c);
      var next := AppendToPages(zero, pages, pool, n, q, c).value;
      forall p: nat | p != q
        ensures p in next <==> FirstOn(p, inlined) < EndOn(p, n + 1)
        ensures p in next ==> StoresOn(pool, next[p], p, inlined, leaves + [c])
      {
        OtherPageStays(pages, pool, inlined, leaves, c, p, q);
      }
    }
  }

  /** A page that the append does not touch stores the same of the longer list. */
  lemma OtherPageStays<F>(pages: map<nat, Page<F>>, pool: nat, inlined: nat, leaves: seq<F>, c: F, p: nat, q: nat)
    requires Stores(pool, pages, inlined, leaves)
    requires p != q && q == ExpectedPageIndex(|leaves|)
    ensures p in pages <==> FirstOn(p, inlined) < EndOn(p, |leaves| + 1)
    ensures p in pages ==> StoresOn(pool, pages[p], p, inlined, leaves + [c])
  {
    OtherPage(p, q, |leaves|);
    if p in pages {
      assert StoresOn(pool, pages[p], p, inlined, leaves);
    }
  }

  lemma OtherPage(p: nat, q: nat, n: nat)
    requires p != q && COMMITMENT_PAGE_CAPACITY * q <= n < COMMITMENT_PAGE_CAPACITY * (q + 1)
    ensures p < q ==> EndOn(p, n + 1) == EndOn(p, n) == COMMITMENT_PAGE_CAPACITY * (p + 1)
    ensures p > q ==> EndOn(p, n) <= EndOn(p, n + 1) <= COMMITMENT_PAGE_CAPACITY * p
  {
  }

  // ---------- the SDK's merge ----------

  function Entries<F>(page: Page<F>): nat {
    Min(Min(page.count, |page.commitments|), COMMITMENT_PAGE_CAPACITY)
  }

  function BaseOf<F>(page: Page<F>): nat {
    page.pageIndex * COMMITMENT_PAGE_CAPACITY + page.startOffset
  }

  predicate Covers<F>(page: Page<F>, g: nat) {
    BaseOf(page) <= g < BaseOf(page) + Entries(page)
  }

  /** The list with the entries of one page written over it. */
  function Overlay<F>(acc: seq<F>, page: Page<F>): (r: seq<F>)
    ensures |r| == |acc|
  {
    seq(|acc|, g requires 0 <= g < |acc| =>
      if Covers(page, g) then page.commitments[g - BaseOf(page)] else acc[g])
  }

  function OverlayAll<F>(acc: seq<F>, pages: seq<Page<F>>): (r: seq<F>)
    ensures |r| == |acc|
    decreases |pages|
  {
    if pages == [] then acc else OverlayAll(Overlay(acc, pages[0]), pages[1..])
  }

  function Inlined<F>(zero: F, inlined: seq<F>, nextIndex: nat): (r: seq<F>)
    ensures |r| == nextIndex
  {
    seq(nextIndex, i requires 0 <= i < nextIndex => if i < |inlined| then inlined[i] else zero)
  }

  function Merged<F>(zero: F, inlined: seq<F>, nextIndex: nat, pages: seq<Page<F>>): (r: seq<F>)
    ensures |r| == nextIndex
  {
    OverlayAll(Inlined(zero, inlined, nextIndex), pages)
  }

  lemma {:induction false} OverlayAllSnoc<F>(acc: seq<F>, pages: seq<Page<F>>, page: Page<F>)
    ensures OverlayAll(acc, pages + [page]) == Overlay(OverlayAll(acc, pages), page)
    decreases |pages|
  {
    if pages == [] {
      assert pages + [page] == [page];
      assert [page][1..] == [];
    } else {
      assert (pages + [page])[1..] == pages[1..] + [page];
      OverlayAllSnoc(Overlay(acc, pages[0]), pages[1..], page);
    }
  }

  method MergeCommitmentSources<F>(zero: F, inlined: seq<F>, nextIndex: nat, pages: seq<Page<F>>)
    returns (commitments: array<F>)
    ensures fresh(commitments)
    ensures commitments[..] == Merged(zero, inlined, nextIndex, pages)
  {
    commitments := new F[nextIndex](_ => zero);
    var limit := if |inlined| < nextIndex then |inlined| else nextIndex;
    var i := 0;
    while i < limit
      invariant 0 <= i <= limit
      invariant forall k :: 0 <= k < i ==> commitments[k] == inlined[k]
      invariant forall k :: i <= k < nextIndex ==> commitments[k] == zero
    {
      commitments[i] := inlined[i];
      i := i + 1;
    }
    ghost var start := Inlined(zero, inlined, nextIndex);
    assert commitments[..] == start;
    var q := 0;
    assert pages[..0] == [];
    while q < |pages|
      invariant 0 <= q <= |pages|
      invariant commitments[..] == OverlayAll(start, pages[..q])
    {
      var page := pages[q];
      ghost var before := commitments[..];
      var maxEntries := Min(Min(page.count, |page.commitments|), COMMITMENT_PAGE_CAPACITY);
      var local := 0;
      while local < maxEntries
        invariant 0 <= local <= maxEntries
        invariant forall g :: 0 <= g < nextIndex ==>
          commitments[g] == if BaseOf(page) <= g < BaseOf(page) + local then page.commitments[g - BaseOf(page)] else before[g]
      {
        var g := page.pageIndex * COMMITMENT_PAGE_CAPACITY + page.startOffset + local;
        if g >= commitments.Length {
          break;
        }
        commitments[g] := page.commitments[local];
        local := local + 1;
      }
      assert commitments[..] == Overlay(before, page);
      OverlayAllSnoc(start, pages[..q], page);
      assert pages[..q + 1] == pages[..q] + [page];
      q := q + 1;
    }
    assert pages[..q] == pages;
  }

  /** Overlaying true pages never spoils a right entry and rights every covered one. */
  lemma {:induction false} OverlayAllRights<F>(acc: seq<F>, pages: seq<Page<F>>, leaves: seq<F>, g: nat)
    requires |acc| == |leaves| && g < |leaves|
    requires forall page, j: nat :: page in pages && j < |leaves| && Covers(page, j) ==> page.commitments[j - BaseOf(page)] == leaves[j]
    requires acc[g] == leaves[g] || exists page :: page in pages && Covers(page, g)
    ensures OverlayAll(acc, pages)[g] == leaves[g]
    decreases |pages|
  {
    if pages != [] {
      assert forall page :: page in pages <==> page == pages[0] || page in pages[1..];
      OverlayAllRights(Overlay(acc, pages[0]), pages[1..], leaves, g);
    }
  }

  /** What a stored page covers, it has right. */
  lemma StoredPageIsTrue<F>(pool: nat, pages: map<nat, Page<F>>, inlined: nat, leaves: seq<F>, p: nat, j: nat)
    requires Stores(pool, pages, inlined, leaves)
    requires p in pages && j < |leaves| && Covers(pages[p], j)
    ensures pages[p].commitments[j - BaseOf(pages[p])] == leaves[j]
  {
    assert StoresOn(pool, pages[p], p, inlined, leaves);
  }

  /** Every leaf that is not inline is covered by its page. */
  lemma StoredLeafIsCovered<F>(pool: nat, pages: map<nat, Page<F>>, inlined: nat, leaves: seq<F>, g: nat)
    requires Stores(pool, pages, inlined, leaves)
    requires inlined <= g < |leaves|
    ensures var p := g / COMMITMENT_PAGE_CAPACITY; p in pages && Covers(pages[p], g)
  {
    var p := g / COMMITMENT_PAGE_CAPACITY;
    assert FirstOn(p, inlined) <= g < EndOn(p, |leaves|);
    assert StoresOn(pool, pages[p], p, inlined, leaves);
  }

  /** Round trip: whatever order, and however often, the pages arrive in, the
      merge is the deposited leaf sequence. */
  lemma MergeRoundTrip<F>(zero: F, pool: nat, pages: map<nat, Page<F>>, inlined: nat, leaves: seq<F>, fetched: seq<Page<F>>)
    requires Stores(pool, pages, inlined, leaves)
    requires forall page <- fetched :: page in pages.Values
    requires forall p <- pages :: pages[p] in fetched
    ensures Merged(zero, leaves[..inlined], |leaves|, fetched) == leaves
  {
    var acc := Inlined(zero, leaves[..inlined], |leaves|);
    forall page, j: nat | page in fetched && j < |leaves| && Covers(page, j)
      ensures page.commitments[j - BaseOf(page)] == leaves[j]
    {
      var p :| p in pages && pages[p] == page;
      StoredPageIsTrue(pool, pages, inlined, leaves, p, j);
    }
    forall g | 0 <= g < |leaves|
      ensures OverlayAll(acc, fetched)[g] == leaves[g]
    {
      if g >= inlined {
        StoredLeafIsCovered(pool, pages, inlined, leaves, g);
      }
      OverlayAllRights(acc, fetched, leaves, g);
    }
  }

  // ---------- fetching ----------

  /** The page accounts 0 .. count-1 that exist, in order. */
  function FetchPages<F(!new)>(pages: map<nat, Page<F>>, count: nat): (fetched: seq<Page<F>>)
    ensures forall page :: page in fetched <==> exists p: nat :: p < count && p in pages && pages[p] == page
  {
    if count == 0 then []
    else FetchPages(pages, count - 1) + (if count - 1 in pages then [pages[count - 1]] else [])
  }

  function PageCount(total: nat): nat {
    (total + COMMITMENT_PAGE_CAPACITY - 1) / COMMITMENT_PAGE_CAPACITY
  }

  function FetchCommitments<F(!new)>(zero: F, legacy: bool, inlined: seq<F>, nextIndex: nat, pages: map<nat, Page<F>>): seq<F> {
    if legacy || nextIndex <= |inlined| then inlined
    else
      Merged(zero, inlined, nextIndex, FetchPages(pages, PageCount(nextIndex)))
  }

  lemma PageIsInRange(p: nat, inlined: nat, total: nat)
    requires FirstOn(p, inlined) < EndOn(p, total)
    ensures p < PageCount(total)
  {
  }

  /** What the SDK fetches from a paged pool is the deposited leaf sequence. */
  lemma FetchRoundTrip<F(!new)>(zero: F, pool: nat, pages: map<nat, Page<F>>, inlined: nat, leaves: seq<F>)
    requires Stores(pool, pages, inlined, leaves)
    ensures FetchCommitments(zero, false, leaves[..inlined], |leaves|, pages) == leaves
  {
    if |leaves| > inlined {
      var fetched := FetchPages(pages, PageCount(|leaves|));
      forall p | p in pages ensures pages[p] in fetched {
        PageIsInRange(p, inlined, |leaves|);
      }
      assert forall page <- fetched :: page in pages.Values;
      MergeRoundTrip(zero, pool, pages, inlined, leaves, fetched);
    } else {
      assert leaves[..inlined] == leaves;
    }
  }

  // ---------- the whole life of the storage ----------

  /** Appends one commitment after the other, each to the page the program expects. */
  function AppendEach<F>(zero: F, pages: map<nat, Page<F>>, pool: nat, nextIndex: nat, cs: seq<F>): Option<map<nat, Page<F>>>
    requires forall p <- pages :: |pages[p].commitments| == COMMITMENT_PAGE_CAPACITY
    decreases |cs|
  {
    if cs == [] then Some(pages)
    else
      match AppendToPages(zero, pages, pool, nextIndex, ExpectedPageIndex(nextIndex), cs[0])
      case None => None
      case Some(next) => AppendEach(zero, next, pool, nextIndex + 1, cs[1..])
  }

  lemma {:induction false} AppendEachStores<F>(zero: F, pages: map<nat, Page<F>>, pool: nat, inlined: nat, leaves: seq<F>, cs: seq<F>)
    returns (last: map<nat, Page<F>>)
    requires pool != NO_POOL
    requires Stores(pool, pages, inlined, leaves)
    ensures AppendEach(zero, pages, pool, |leaves|, cs) == Some(last)
    ensures Stores(pool, last, inlined, leaves + cs)
    decreases |cs|
  {
    if cs == [] {
      assert leaves + cs == leaves;
      last := pages;
    } else {
      var appended := AppendOneStores(zero, pages, pool, inlined, leaves, cs);
      HeadThenTail(leaves, cs);
      last := AppendEachStores(zero, appended, pool, inlined, leaves + [cs[0]], cs[1..]);
    }
  }

  lemma HeadThenTail<F>(leaves: seq<F>, cs: seq<F>)
    requires cs != []
    ensures (leaves + [cs[0]]) + cs[1..] == leaves + cs
    ensures |leaves + [cs[0]]| == |leaves| + 1
  {
  }

  lemma AppendOneStores<F>(zero: F, pages: map<nat, Page<F>>, pool: nat, inlined: nat, leaves: seq<F>, cs: seq<F>)
    returns (appended: map<nat, Page<F>>)
    requires pool != NO_POOL && cs != []
    requires Stores(pool, pages, inlined, leaves)
    ensures Stores(pool, appended, inlined, leaves + [cs[0]])
    ensures AppendEach(zero, pages, pool, |leaves|, cs) == AppendEach(zero, appended, pool, |leaves| + 1, cs[1..])
  {
    AppendStores(zero, pages, pool, inlined, leaves, ExpectedPageIndex(|leaves|), cs[0]);
    appended := AppendToPages(zero, pages, pool, |leaves|, ExpectedPageIndex(|leaves|), cs[0]).value;
  }

  /** From any inline commitments and no pages: after any number of appends the
      SDK reads back all commitments, in order. */
  lemma StorageRoundTrip<F(!new)>(zero: F, pool: nat, inlined: seq<F>, cs: seq<F>)
    requires pool != NO_POOL
    ensures var r := AppendEach(zero, map[], pool, |inlined|, cs);
            r.Some? && FetchCommitments(zero, false, inlined, |inlined| + |cs|, r.value) == inlined + cs
  {
    NoPagesYet(pool, inlined);
    var last := AppendEachStores(zero, map[], pool, |inlined|, inlined, cs);
    assert (inlined + cs)[..|inlined|] == inlined;
    FetchRoundTrip(zero, pool, last, |inlined|, inlined + cs);
  }
}
