/**
 * The client-side post-processing inside `getBanners`: drop every paused
 * banner, then sort the rest by `order`, largest first.  The comparator is
 * `b.order - a.order` and `Array.prototype.sort` is stable, so banners with
 * equal `order` keep the order in which the server listed them.
 */
module BannerService {
  import opened BannerModel

  /** The status of a banner that is hidden from the list. */
  const Paused: string := "Tạm dừng"

  ghost predicate NoPaused(s: seq<Banner>) {
    forall i :: 0 <= i < |s| ==> s[i].status != Paused
  }

  /** Non-increasing in `order`: what the comparator `b.order - a.order` asks for. */
  ghost predicate SortedByOrderDesc(s: seq<Banner>) {
    forall i, j :: 0 <= i < j < |s| ==> s[i].order >= s[j].order
  }

  /** `filter(banner => banner.status !== 'Tạm dừng')` */
  function RemovePaused(s: seq<Banner>): (r: seq<Banner>)
    ensures NoPaused(r)
    ensures |r| <= |s|
    ensures forall b :: b in r ==> b in s && b.status != Paused
    ensures forall b :: b in s && b.status != Paused ==> b in r
  {
    if s == [] then []
    else
      assert s == [s[0]] + s[1..];
      (if s[0].status == Paused then [] else [s[0]]) + RemovePaused(s[1..])
  }

  /** The filter keeps every non-paused record as many times as the input holds it. */
  lemma {:induction false} RemovePausedCounts(s: seq<Banner>)
    ensures forall b :: multiset(RemovePaused(s))[b] == if b.status != Paused then multiset(s)[b] else 0
  {
    if s != [] {
      RemovePausedCounts(s[1..]);
      assert s == [s[0]] + s[1..];
    }
  }

  /** Places x in front of the first element whose order is not larger than its own. */
  function Insert(x: Banner, s: seq<Banner>): (r: seq<Banner>)
    requires SortedByOrderDesc(s)
    ensures |r| == |s| + 1
    ensures r[0] == x || (s != [] && r[0] == s[0])
    ensures SortedByOrderDesc(r)
    ensures multiset(r) == multiset(s) + multiset{x}
  {
    if s == [] || s[0].order <= x.order then
      SortedCons(x, s);
      [x] + s
    else
      var t := Insert(x, s[1..]);
      assert s == [s[0]] + s[1..];
      SortedCons(s[0], t);
      [s[0]] + t
  }

  lemma SortedCons(y: Banner, t: seq<Banner>)
    requires SortedByOrderDesc(t)
    requires t == [] || y.order >= t[0].order
    ensures SortedByOrderDesc([y] + t)
  {
    var r := [y] + t;
    forall i, j | 0 <= i < j < |r| ensures r[i].order >= r[j].order {
      assert r[j] == t[j - 1];
      if i > 0 {
        assert r[i] == t[i - 1];
      } else if j > 1 {
        assert t[0].order >= t[j - 1].order;
      }
    }
  }

  /** Stable insertion sort by `order`, largest first. */
  function SortByOrderDesc(s: seq<Banner>): (r: seq<Banner>)
    ensures SortedByOrderDesc(r)
    ensures multiset(r) == multiset(s)
  {
    if s == [] then []
    else
      assert s == [s[0]] + s[1..];
      Insert(s[0], SortByOrderDesc(s[1..]))
  }

  /**
   * The list `getBanners` resolves to, given the list the server returned:
   * no paused banner, non-increasing in `order`, and a permutation of the
   * server's non-paused banners.
   */
  function GetBanners(fetched: seq<Banner>): (r: seq<Banner>)
    ensures NoPaused(r)
    ensures SortedByOrderDesc(r)
    ensures multiset(r) == multiset(RemovePaused(fetched))
  {
    var shown := RemovePaused(fetched);
    var r := SortByOrderDesc(shown);
    SameElements(r, shown);
    assert forall i :: 0 <= i < |r| ==> r[i] in shown;
    r
  }

  /**
   * A banner is listed exactly when the server returned it and it is not
   * paused, and the list is no longer than the server's.
   */
  lemma GetBannersMembers(fetched: seq<Banner>)
    ensures |GetBanners(fetched)| <= |fetched|
    ensures forall b :: b in GetBanners(fetched) <==> b in fetched && b.status != Paused
  {
    var r := GetBanners(fetched);
    var shown := RemovePaused(fetched);
    assert |r| == |multiset(r)| == |shown|;
    SameElements(r, shown);
  }

  lemma SameElements(a: seq<Banner>, b: seq<Banner>)
    requires multiset(a) == multiset(b)
    ensures forall x :: x in a <==> x in b
  {
    forall x ensures x in a <==> x in b {
      assert x in a <==> x in multiset(a);
      assert x in b <==> x in multiset(b);
    }
  }

  /** When the server returns no paused banner, nothing is dropped. */
  lemma {:induction false} RemovePausedNone(s: seq<Banner>)
    requires NoPaused(s)
    ensures RemovePaused(s) == s
  {
    if s != [] {
      RemovePausedNone(s[1..]);
    }
  }

  lemma AllShownSortedPermutation(fetched: seq<Banner>)
    requires NoPaused(fetched)
    ensures SortedByOrderDesc(GetBanners(fetched))
    ensures multiset(GetBanners(fetched)) == multiset(fetched)
  {
    RemovePausedNone(fetched);
  }

  // ---------------------------------------------------------------------
  // Stability

  /** The banners of s whose order is k, in their order in s. */
  function WithOrder(s: seq<Banner>, k: int): seq<Banner> {
    if s == [] then []
    else (if s[0].order == k then [s[0]] else []) + WithOrder(s[1..], k)
  }

  lemma WithOrderCons(y: Banner, t: seq<Banner>, k: int)
    ensures WithOrder([y] + t, k) == (if y.order == k then [y] else []) + WithOrder(t, k)
  {
    assert ([y] + t)[1..] == t;
  }

  /** One step of Insert past an element ordered strictly above x. */
  lemma InsertPast(x: Banner, s: seq<Banner>)
    requires SortedByOrderDesc(s) && s != [] && s[0].order > x.order
    ensures SortedByOrderDesc(s[1..])
    ensures Insert(x, s) == [s[0]] + Insert(x, s[1..])
  {
  }

  lemma {:induction false} InsertWithOrder(x: Banner, s: seq<Banner>, k: int)
    requires SortedByOrderDesc(s)
    ensures WithOrder(Insert(x, s), k)
            == (if x.order == k then [x] else []) + WithOrder(s, k)
  {
    var here := if x.order == k then [x] else [];
    if s == [] || s[0].order <= x.order {
      assert Insert(x, s) == [x] + s;
      WithOrderCons(x, s, k);
    } else {
      var tail := s[1..];
      var first := if s[0].order == k then [s[0]] else [];
      var w := WithOrder(tail, k);
      assert WithOrder(Insert(x, s), k) == first + (here + w) by {
        InsertPast(x, s);
        var t := Insert(x, tail);
        InsertWithOrder(x, tail, k);
        WithOrderCons(s[0], t, k);
      }
      assert WithOrder(s, k) == first + w by {
        assert s == [s[0]] + tail;
        WithOrderCons(s[0], tail, k);
      }
      // s[0] is ordered strictly above x, so at most one of them has order k
      if first == [] {
        assert first + (here + w) == here + w == here + (first + w);
      } else {
        assert here == [];
        assert first + (here + w) == first + w == here + (first + w);
      }
    }
  }

  lemma {:induction false} SortKeepsTies(s: seq<Banner>, k: int)
    ensures WithOrder(SortByOrderDesc(s), k) == WithOrder(s, k)
  {
    if s != [] {
      SortKeepsTies(s[1..], k);
      InsertWithOrder(s[0], SortByOrderDesc(s[1..]), k);
    }
  }

  lemma {:induction false} RemovePausedAppend(a: seq<Banner>, b: seq<Banner>)
    ensures RemovePaused(a + b) == RemovePaused(a) + RemovePaused(b)
  {
    if a != [] {
      var kept := if a[0].status == Paused then [] else [a[0]];
      assert (a + b)[0] == a[0];
      assert (a + b)[1..] == a[1..] + b;
      assert RemovePaused(a + b) == kept + RemovePaused(a[1..] + b);
      RemovePausedAppend(a[1..], b);
      assert RemovePaused(a) == kept + RemovePaused(a[1..]);
      assert kept + (RemovePaused(a[1..]) + RemovePaused(b))
             == (kept + RemovePaused(a[1..])) + RemovePaused(b);
    } else {
      assert a + b == b;
    }
  }

  lemma {:induction false} WithOrderAppend(a: seq<Banner>, b: seq<Banner>, k: int)
    ensures WithOrder(a + b, k) == WithOrder(a, k) + WithOrder(b, k)
  {
    if a != [] {
      assert (a + b)[1..] == a[1..] + b;
      WithOrderAppend(a[1..], b, k);
    } else {
      assert a + b == b;
    }
  }

  lemma {:induction false} WithOrderRemovePaused(s: seq<Banner>, k: int)
    ensures WithOrder(RemovePaused(s), k) == RemovePaused(WithOrder(s, k))
  {
    if s != [] {
      var x := s[0];
      WithOrderRemovePaused(s[1..], k);
      var kept := if x.status == Paused then [] else [x];
      var same := if x.order == k then [x] else [];
      WithOrderAppend(kept, RemovePaused(s[1..]), k);
      RemovePausedAppend(same, WithOrder(s[1..], k));
      assert WithOrder(kept, k) == RemovePaused(same) by {
        if kept != [] {
          assert WithOrder(kept, k) == same + WithOrder([], k);
        }
        if same != [] {
          assert RemovePaused(same) == kept + RemovePaused([]);
        }
      }
    }
  }

  /**
   * Banners with equal `order` appear in the result in the order the server
   * listed them.
   */
  lemma GetBannersStable(fetched: seq<Banner>, k: int)
    ensures WithOrder(GetBanners(fetched), k) == RemovePaused(WithOrder(fetched, k))
  {
    SortKeepsTies(RemovePaused(fetched), k);
    WithOrderRemovePaused(fetched, k);
  }
}
