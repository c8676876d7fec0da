/**
 * `IPLocate` (IPLocate.java): the lookup of an address in the range tree,
 * memoised in a cache keyed by the text of the address, and the result record
 * `LocateResult`.
 */
module Locating {
  import opened Outcomes
  import opened Addresses
  import opened Entries
  import opened AvlModel
  import opened DottedQuad
  import opened SearchTrees

  /** `LocateResult`: the four location fields and the address text asked for. */
  datatype LocateResult = LocateResult(info: Info, searchIp: string)

  /** `new LocateResult(ip)`: the record cached for an address no range covers. */
  function Placeholder(ip: string): (r: LocateResult)
    ensures r.searchIp == ip
    ensures r.info.country == "--" && r.info.province == "--" && r.info.isp == "--" && r.info.department == "--"
  {
    LocateResult(DefaultInfo(), ip)
  }

  /** `new LocateResult(ipe, searchIp)` (IPLocate.java:244-247): the entry's four fields and the address text. */
  function FromEntry(e: Entry, ip: string): (r: LocateResult)
    ensures r.info == e.info && r.searchIp == ip
  {
    LocateResult(Info(e.info.country, e.info.province, e.info.isp, e.info.department), ip)
  }

  /** The country value of ranges inside mainland China. */
  const China: string := "境内"

  /** `isInChina`: whether the country field is exactly `China`. */
  function IsInChina(r: LocateResult): (b: bool)
    ensures b <==> r.info.country == China
  {
    r.info.country == China
  }

  /** A placeholder is never in China: its country is "--". */
  lemma PlaceholderNotInChina(ip: string)
    ensures !IsInChina(Placeholder(ip))
  {
    assert China[0] != '-';
  }

  // ---------------------------------------------------------------------------
  // The lookup as a function of the cache and the tree
  // ---------------------------------------------------------------------------

  /** What one call of `locate` returns and the cache it leaves. */
  datatype Lookup = Lookup(result: Throws<Option<LocateResult>>, cache: map<string, LocateResult>)

  /**
   * One call of `locate(ip)` on the cache `cache` and the tree `t`: `None`
   * is the source's `null`, and an empty tree makes `search` throw.
   */
  function LocateStep(cache: map<string, LocateResult>, t: Tree, ip: string): (o: Lookup)
    ensures forall k :: k in cache ==> k in o.cache && o.cache[k] == cache[k]
    ensures o.cache.Keys <= cache.Keys + {ip}
    ensures o.result.Returns? && o.result.value.Some? ==> ip in o.cache && o.cache[ip] == o.result.value.value
  {
    if !IsDottedQuad(ip) then Lookup(Returns(None), cache)
    else if ip in cache then Lookup(Returns(Some(cache[ip])), cache)
    else if t.Nil? then Lookup(NullPointerException, cache)
    else
      var a := ParseAddr(ip).value;
      var e := Floor(t, a, t.data);
      if Contains(e, a) then Lookup(Returns(Some(FromEntry(e, ip))), cache[ip := FromEntry(e, ip)])
      else Lookup(Returns(None), cache[ip := Placeholder(ip)])
  }

  /** The ranges of the entries, in order, do not overlap. */
  ghost predicate Disjoint(s: seq<Entry>)
  {
    forall i, j :: 0 <= i < j < |s| ==> Value(s[i].end) < Key(s[j])
  }

  /**
   * When the ranges do not overlap, the floor search finds the range that
   * holds the address whenever one does.
   */
  lemma FloorFindsContainingRange(t: Tree, a: Addr, min: Entry, e: Entry)
    requires Ordered(t) && Disjoint(InOrder(t))
    requires e in InOrder(t) && Contains(e, a)
    ensures Floor(t, a, min) == e
  {
    FloorIsGreatestNotAbove(t, a, min);
    var s := InOrder(t);
    var f := Floor(t, a, min);
    var i :| 0 <= i < |s| && s[i] == e;
    var j :| 0 <= j < |s| && s[j] == f;
    assert i == j;
  }

  /**
   * Text `isIP` refuses: `null`, and the cache is unchanged (IPLocate.java:138-142).
   */
  lemma LocateRejects(cache: map<string, LocateResult>, t: Tree, ip: string)
    requires !IsDottedQuad(ip)
    ensures LocateStep(cache, t, ip) == Lookup(Returns(None), cache)
  {
  }

  /**
   * A cached address is answered from the cache whatever the tree holds
   * (IPLocate.java:144-148).
   */
  lemma LocateCached(cache: map<string, LocateResult>, t: Tree, u: Tree, ip: string)
    requires IsDottedQuad(ip) && ip in cache
    ensures LocateStep(cache, t, ip) == LocateStep(cache, u, ip) == Lookup(Returns(Some(cache[ip])), cache)
  {
  }

  /**
   * A valid address not yet cached, on a non-empty tree: the cache gains
   * exactly that one key and keeps every other entry, and the answer is what
   * was stored (IPLocate.java:150-169).
   */
  lemma LocateMissCaches(cache: map<string, LocateResult>, t: Tree, ip: string)
    requires IsDottedQuad(ip) && ip !in cache && t.Node?
    ensures var o := LocateStep(cache, t, ip);
      o.cache.Keys == cache.Keys + {ip} &&
      (forall k :: k in cache ==> o.cache[k] == cache[k]) &&
      o.result.Returns? &&
      (o.result.value.None? ==> o.cache[ip] == Placeholder(ip)) &&
      (o.result.value.Some? ==> o.cache[ip] == o.result.value.value)
  {
  }

  /**
   * On an ordered tree of non-overlapping ranges a miss answers with the
   * range holding the address when there is one, carrying that range's
   * fields and the address text, and `null` when no range holds it.
   */
  lemma LocateFindsRange(cache: map<string, LocateResult>, t: Tree, ip: string)
    requires Ordered(t) && Disjoint(InOrder(t))
    requires IsDottedQuad(ip) && ip !in cache && t.Node?
    ensures var a := ParseAddr(ip).value;
      var o := LocateStep(cache, t, ip);
      ((exists e :: e in InOrder(t) && Contains(e, a)) ==>
        exists e :: e in InOrder(t) && Contains(e, a) && o.result == Returns(Some(FromEntry(e, ip)))) &&
      ((forall e :: e in InOrder(t) ==> !Contains(e, a)) ==> o.result == Returns(None))
  {
    var a := ParseAddr(ip).value;
    FloorIsGreatestNotAbove(t, a, t.data);
    if e :| e in InOrder(t) && Contains(e, a) {
      FloorFindsContainingRange(t, a, t.data, e);
    } else {
      var f := Floor(t, a, t.data);
      assert f in InOrder(t) by {
        if forall d :: d in InOrder(t) ==> Key(d) > Value(a) {
          assert InOrder(t) == InOrder(t.left) + [t.data] + InOrder(t.right);
        }
      }
    }
  }

  /**
   * The repeated-miss behaviour: for an address no range covers, the first
   * `locate` answers `null` but caches a placeholder, and the second answers
   * that placeholder, whose four fields are all "--" (IPLocate.java:144-147,
   * 152-168).
   */
  lemma RepeatedMiss(cache: map<string, LocateResult>, t: Tree, ip: string)
    requires IsDottedQuad(ip) && ip !in cache && t.Node?
    requires !Contains(Floor(t, ParseAddr(ip).value, t.data), ParseAddr(ip).value)
    ensures LocateStep(cache, t, ip).result == Returns(None)
    ensures LocateStep(LocateStep(cache, t, ip).cache, t, ip).result == Returns(Some(Placeholder(ip)))
  {
  }

  /**
   * `isInChina` of what `locate` returns on a miss: with ordered,
   * non-overlapping ranges, the answer is in China exactly when a range
   * holding the address has the country "境内"; so is the record cached, since
   * a placeholder never is.
   */
  lemma LocateInChina(cache: map<string, LocateResult>, t: Tree, ip: string)
    requires Ordered(t) && Disjoint(InOrder(t))
    requires IsDottedQuad(ip) && ip !in cache && t.Node?
    ensures var a := ParseAddr(ip).value;
      var o := LocateStep(cache, t, ip);
      o.result.Returns? && ip in o.cache &&
      ((o.result.value.Some? && IsInChina(o.result.value.value)) <==>
        exists e :: e in InOrder(t) && Contains(e, a) && e.info.country == China) &&
      (IsInChina(o.cache[ip]) <==>
        exists e :: e in InOrder(t) && Contains(e, a) && e.info.country == China)
  {
    var a := ParseAddr(ip).value;
    var f := Floor(t, a, t.data);
    assert f in InOrder(t) by {
      assert InOrder(t) == InOrder(t.left) + [t.data] + InOrder(t.right);
    }
    PlaceholderNotInChina(ip);
    if e :| e in InOrder(t) && Contains(e, a) && e.info.country == China {
      FloorFindsContainingRange(t, a, t.data, e);
    }
  }

  // ---------------------------------------------------------------------------
  // The object
  // ---------------------------------------------------------------------------

  /** `IPLocate`: the cache of answers and the range tree it searches. */
  class IPLocate {
    var ipcache: map<string, LocateResult>
    const st: SearchTree

    /** The state `init` leaves once the tree is read: the tree and an empty cache. */
    constructor (tree: SearchTree)
      ensures st == tree && ipcache == map[]
    {
      st := tree;
      ipcache := map[];
    }

    /**
     * `locate(ip)` (IPLocate.java:135-170): validates the text, answers from
     * the cache when it can, otherwise searches the tree and tests the range
     * found, caching the answer or a placeholder.
     */
    method Locate(ip: string) returns (r: Throws<Option<LocateResult>>)
      requires st.Shaped() && Ordered(st.Model())
      modifies this`ipcache
      ensures Lookup(r, ipcache) == LocateStep(old(ipcache), st.Model(), ip)
    {
      var valid := IsIP(ip);
      if !valid {
        return Returns(None);
      }
      if ip in ipcache {
        return Returns(Some(ipcache[ip]));
      }
      var a := ParseAddr(ip).value;
      var node := st.SearchIp(a);
      if node.NullPointerException? {
        return NullPointerException;
      }
      if node.value != null && Contains(node.value.data, a) {
        var lr := FromEntry(node.value.data, ip);
        ipcache := ipcache[ip := lr];
        return Returns(Some(lr));
      }
      ipcache := ipcache[ip := Placeholder(ip)];
      return Returns(None);
    }

    /** `clear` (IPLocate.java:175-178): the cache becomes empty. */
    method Clear()
      modifies this`ipcache
      ensures ipcache == map[]
    {
      ipcache := map[];
    }
  }
}
