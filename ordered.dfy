/** The ordered key-value store behind `Map::range`: a finite map together with its keys in
    store order, and the pages a range scan with an exclusive cursor and a `take(limit)`
    returns, ascending or descending. */
module Ordered {
  import opened Wrappers

  /** `lt` is a strict total order: irreflexive, transitive and total. */
  ghost predicate StrictTotalOrder<K(!new)>(lt: (K, K) -> bool) {
    && (forall a :: !lt(a, a))
    && (forall a, b, c :: lt(a, b) && lt(b, c) ==> lt(a, c))
    && (forall a, b :: a != b ==> lt(a, b) || lt(b, a))
  }

  /** The reverse of an order. */
  function Flip<K>(lt: (K, K) -> bool): (K, K) -> bool {
    (a: K, b: K) => lt(b, a)
  }

  lemma FlipOrder<K(!new)>(lt: (K, K) -> bool)
    requires StrictTotalOrder(lt)
    ensures StrictTotalOrder(Flip(lt))
  {
  }

  /** Strictly ascending under `lt` (so also free of duplicates). */
  predicate Ascending<K>(ks: seq<K>, lt: (K, K) -> bool) {
    forall i, j :: 0 <= i < j < |ks| ==> lt(ks[i], ks[j])
  }

  /** A store: its entries and the same keys listed in store order. */
  datatype Store<K(==), V> = Store(keys: seq<K>, entries: map<K, V>)

  ghost predicate Sound<K(!new), V>(s: Store<K, V>, lt: (K, K) -> bool) {
    && Ascending(s.keys, lt)
    && forall k :: k in s.entries <==> k in s.keys
  }

  /** Strictly beyond an exclusive cursor; every key is beyond an absent cursor. */
  predicate Beyond<K>(k: K, lt: (K, K) -> bool, cursor: Option<K>) {
    cursor.None? || lt(cursor.value, k)
  }

  /** The keys of `ks` strictly beyond `cursor`, in their order in `ks`. */
  function After<K(==,!new)>(ks: seq<K>, lt: (K, K) -> bool, cursor: Option<K>): (r: seq<K>)
    ensures |r| <= |ks|
  {
    if ks == [] then []
    else if Beyond(ks[0], lt, cursor) then [ks[0]] + After(ks[1..], lt, cursor)
    else After(ks[1..], lt, cursor)
  }

  /** The filter keeps exactly the keys beyond the cursor. */
  lemma {:induction false} AfterMembers<K(!new)>(ks: seq<K>, lt: (K, K) -> bool, cursor: Option<K>)
    ensures forall k :: k in After(ks, lt, cursor) <==> k in ks && Beyond(k, lt, cursor)
  {
    if ks != [] {
      AfterMembers(ks[1..], lt, cursor);
      assert forall k :: k in ks <==> k == ks[0] || k in ks[1..];
    }
  }

  /** Iterator::take */
  function Take<K>(s: seq<K>, n: nat): (r: seq<K>)
    ensures |r| == if n < |s| then n else |s|
    ensures r == s[..|r|]
  {
    if n < |s| then s[..n] else s
  }

  function Reverse<K>(s: seq<K>): (r: seq<K>)
    ensures |r| == |s|
    ensures forall i :: 0 <= i < |s| ==> r[i] == s[|s| - 1 - i]
  {
    if s == [] then [] else Reverse(s[1..]) + [s[0]]
  }

  /** `range(Some(Bound::exclusive(cursor)), None, Ascending).take(limit)` over the keys. */
  function Page<K(==,!new)>(ks: seq<K>, lt: (K, K) -> bool, cursor: Option<K>, limit: nat): (r: seq<K>)
    ensures |r| <= limit
    ensures forall k :: k in r ==> k in ks && Beyond(k, lt, cursor)
  {
    AfterMembers(ks, lt, cursor);
    Take(After(ks, lt, cursor), limit)
  }

  /** `range(None, Some(Bound::exclusive(cursor)), Descending).take(limit)`: the keys strictly
      below the cursor, largest first. */
  function ReversePage<K(==,!new)>(ks: seq<K>, lt: (K, K) -> bool, cursor: Option<K>, limit: nat): (r: seq<K>)
    ensures |r| <= limit
    ensures forall k :: k in r ==> k in ks && (cursor.None? || lt(k, cursor.value))
  {
    AfterMembers(ks, Flip(lt), cursor);
    Take(Reverse(After(ks, Flip(lt), cursor)), limit)
  }

  // ---------------------------------------------------------------------------------
  // Filtering a sorted key list

  lemma {:induction false} AfterAscending<K(!new)>(ks: seq<K>, lt: (K, K) -> bool, cursor: Option<K>)
    requires Ascending(ks, lt)
    ensures Ascending(After(ks, lt, cursor), lt)
  {
    if ks != [] {
      var rest := After(ks[1..], lt, cursor);
      AfterAscending(ks[1..], lt, cursor);
      AfterMembers(ks[1..], lt, cursor);
      if Beyond(ks[0], lt, cursor) {
        var r := [ks[0]] + rest;
        forall i, j | 0 <= i < j < |r| ensures lt(r[i], r[j]) {
          if i == 0 {
            assert r[j] in ks[1..];
          }
        }
      }
    }
  }

  lemma {:induction false} AllBeyond<K(!new)>(ks: seq<K>, lt: (K, K) -> bool, cursor: Option<K>)
    requires forall i :: 0 <= i < |ks| ==> Beyond(ks[i], lt, cursor)
    ensures After(ks, lt, cursor) == ks
  {
    if ks != [] {
      AllBeyond(ks[1..], lt, cursor);
      assert [ks[0]] + ks[1..] == ks;
    }
  }

  /** On a sorted list the keys beyond a cursor form a suffix. */
  lemma {:induction false} AfterIsSuffix<K(!new)>(ks: seq<K>, lt: (K, K) -> bool, cursor: Option<K>)
    requires StrictTotalOrder(lt) && Ascending(ks, lt)
    ensures After(ks, lt, cursor) == ks[|ks| - |After(ks, lt, cursor)|..]
  {
    if ks != [] {
      if Beyond(ks[0], lt, cursor) {
        AllBeyond(ks, lt, cursor);
      } else {
        AfterIsSuffix(ks[1..], lt, cursor);
      }
    }
  }

  /** Taking a stored key as the cursor leaves exactly the keys after its position. */
  lemma {:induction false} AfterKey<K(!new)>(ks: seq<K>, lt: (K, K) -> bool, j: nat)
    requires StrictTotalOrder(lt) && Ascending(ks, lt) && j < |ks|
    ensures After(ks, lt, Some(ks[j])) == ks[j + 1..]
  {
    if j == 0 {
      AllBeyond(ks[1..], lt, Some(ks[0]));
    } else {
      assert !lt(ks[j], ks[0]);
      AfterKey(ks[1..], lt, j - 1);
    }
  }

  // ---------------------------------------------------------------------------------
  // Pages

  /** A page is the first `limit` keys beyond the cursor, in ascending order: ascending,
      nothing beyond the cursor up to its last key is left out, and a page shorter than
      the limit holds every key beyond the cursor. */
  lemma PageIsPrefix<K(!new)>(ks: seq<K>, lt: (K, K) -> bool, cursor: Option<K>, limit: nat)
    requires StrictTotalOrder(lt) && Ascending(ks, lt)
    ensures var r := Page(ks, lt, cursor, limit);
      && Ascending(r, lt)
      && |r| == (if limit < |After(ks, lt, cursor)| then limit else |After(ks, lt, cursor)|)
      && (forall k :: k in ks && Beyond(k, lt, cursor) && r != [] && !lt(r[|r| - 1], k) ==> k in r)
      && (|r| < limit ==> forall k :: k in ks && Beyond(k, lt, cursor) ==> k in r)
  {
    var a := After(ks, lt, cursor);
    var r := Page(ks, lt, cursor, limit);
    AfterAscending(ks, lt, cursor);
    AfterMembers(ks, lt, cursor);
    forall k | k in ks && Beyond(k, lt, cursor) && r != [] && !lt(r[|r| - 1], k) ensures k in r {
      var j :| 0 <= j < |a| && a[j] == k;
    }
  }

  /** `r` is a page of store `s`: at most `limit` stored keys, each beyond the cursor, in
      ascending order, with no stored key beyond the cursor skipped (every such key up to
      the last one listed is listed, and all of them are when the page is short). */
  ghost predicate IsPage<K(!new), V>(s: Store<K, V>, lt: (K, K) -> bool, cursor: Option<K>, limit: nat, r: seq<K>) {
    && |r| <= limit
    && (forall i :: 0 <= i < |r| ==> r[i] in s.entries && Beyond(r[i], lt, cursor))
    && (forall i, j :: 0 <= i < j < |r| ==> lt(r[i], r[j]))
    && (forall k :: k in s.entries && Beyond(k, lt, cursor) && (|r| < limit || (r != [] && !lt(r[|r| - 1], k)))
                    ==> k in r)
  }

  lemma StorePage<K(!new), V>(s: Store<K, V>, lt: (K, K) -> bool, cursor: Option<K>, limit: nat)
    requires StrictTotalOrder(lt) && Sound(s, lt)
    ensures IsPage(s, lt, cursor, limit, Page(s.keys, lt, cursor, limit))
  {
    PageIsPrefix(s.keys, lt, cursor, limit);
  }

  /** After a non-empty page, continuing from its last key yields exactly the remaining
      keys; an empty page (with a positive limit) means nothing is left. */
  lemma PageSplit<K(!new)>(ks: seq<K>, lt: (K, K) -> bool, cursor: Option<K>, limit: nat)
    requires StrictTotalOrder(lt) && Ascending(ks, lt) && limit > 0
    ensures var r := Page(ks, lt, cursor, limit);
      && (r == [] ==> After(ks, lt, cursor) == [])
      && (r != [] ==> After(ks, lt, cursor) == r + After(ks, lt, Some(r[|r| - 1]))
                      && |After(ks, lt, Some(r[|r| - 1]))| < |After(ks, lt, cursor)|)
  {
    var a := After(ks, lt, cursor);
    var r := Page(ks, lt, cursor, limit);
    if r != [] {
      AfterIsSuffix(ks, lt, cursor);
      var i := |ks| - |a|;
      assert r[|r| - 1] == ks[i + |r| - 1];
      AfterKey(ks, lt, i + |r| - 1);
      assert a == r + a[|r|..];
    }
  }

  /** A full page followed by the page that continues from its last key is the page of
      the combined size. */
  lemma PagesConcatenate<K(!new)>(ks: seq<K>, lt: (K, K) -> bool, cursor: Option<K>, n: nat, m: nat)
    requires StrictTotalOrder(lt) && Ascending(ks, lt)
    requires |Page(ks, lt, cursor, n)| == n > 0
    ensures var r := Page(ks, lt, cursor, n);
      r + Page(ks, lt, Some(r[n - 1]), m) == Page(ks, lt, cursor, n + m)
  {
    var a := After(ks, lt, cursor);
    var r := Page(ks, lt, cursor, n);
    PageSplit(ks, lt, cursor, n);
    assert After(ks, lt, Some(r[n - 1])) == a[n..];
  }

  // ---------------------------------------------------------------------------------
  // Descending pages are ascending pages of the reversed store under the reversed order

  lemma {:induction false} AfterAppend<K(!new)>(s: seq<K>, t: seq<K>, lt: (K, K) -> bool, cursor: Option<K>)
    ensures After(s + t, lt, cursor) == After(s, lt, cursor) + After(t, lt, cursor)
  {
    if s != [] {
      var u := s + t;
      assert u[0] == s[0];
      assert u[1..] == s[1..] + t;
      AfterAppend(s[1..], t, lt, cursor);
      var a, b := After(s[1..], lt, cursor), After(t, lt, cursor);
      if Beyond(s[0], lt, cursor) {
        assert [s[0]] + (a + b) == ([s[0]] + a) + b;
      }
    } else {
      assert s + t == t;
    }
  }

  lemma {:induction false} ReverseAppend<K>(s: seq<K>, t: seq<K>)
    ensures Reverse(s + t) == Reverse(t) + Reverse(s)
  {
  }

  lemma {:induction false} ReverseAfter<K(!new)>(ks: seq<K>, lt: (K, K) -> bool, cursor: Option<K>)
    ensures Reverse(After(ks, lt, cursor)) == After(Reverse(ks), lt, cursor)
  {
    if ks != [] {
      ReverseAfter(ks[1..], lt, cursor);
      assert Reverse(ks) == Reverse(ks[1..]) + [ks[0]];
      AfterAppend(Reverse(ks[1..]), [ks[0]], lt, cursor);
      var head := if Beyond(ks[0], lt, cursor) then [ks[0]] else [];
      assert After([ks[0]], lt, cursor) == head;
      assert After(ks, lt, cursor) == head + After(ks[1..], lt, cursor);
      ReverseAppend(head, After(ks[1..], lt, cursor));
    }
  }

  /** A descending scan is an ascending scan of the reversed keys under the reversed
      order, and the reversed keys are sorted under it; every ascending-page fact
      therefore holds of descending pages. */
  lemma ReversePageIsPage<K(!new)>(ks: seq<K>, lt: (K, K) -> bool, cursor: Option<K>, limit: nat)
    requires StrictTotalOrder(lt) && Ascending(ks, lt)
    ensures ReversePage(ks, lt, cursor, limit) == Page(Reverse(ks), Flip(lt), cursor, limit)
    ensures StrictTotalOrder(Flip(lt)) && Ascending(Reverse(ks), Flip(lt))
  {
    ReverseAfter(ks, Flip(lt), cursor);
    FlipOrder(lt);
  }

  lemma ReverseHasSameKeys<K(!new)>(s: seq<K>)
    ensures forall k :: k in Reverse(s) <==> k in s
  {
    var r := Reverse(s);
    forall k | k in s ensures k in r {
      var i :| 0 <= i < |s| && s[i] == k;
      assert r[|s| - 1 - i] == k;
    }
  }

  /** A descending page is the first `limit` keys below the cursor, largest first: strictly
      descending, nothing below the cursor down to its last key is left out, and a page
      shorter than the limit holds every key below the cursor. */
  lemma ReversePageIsPrefix<K(!new)>(ks: seq<K>, lt: (K, K) -> bool, cursor: Option<K>, limit: nat)
    requires StrictTotalOrder(lt) && Ascending(ks, lt)
    ensures var r := ReversePage(ks, lt, cursor, limit);
      && (forall i, j :: 0 <= i < j < |r| ==> lt(r[j], r[i]))
      && (forall k :: k in ks && (cursor.None? || lt(k, cursor.value)) && r != [] && !lt(k, r[|r| - 1]) ==> k in r)
      && (|r| < limit ==> forall k :: k in ks && (cursor.None? || lt(k, cursor.value)) ==> k in r)
  {
    var r := ReversePage(ks, lt, cursor, limit);
    var flt := Flip(lt);
    ReversePageIsPage(ks, lt, cursor, limit);
    PageIsPrefix(Reverse(ks), flt, cursor, limit);
    ReverseHasSameKeys(ks);
    forall i, j | 0 <= i < j < |r| ensures lt(r[j], r[i]) {
      assert flt(r[i], r[j]);
    }
    forall k | k in ks && (cursor.None? || lt(k, cursor.value)) ensures k in Reverse(ks) && Beyond(k, flt, cursor) {
    }
  }

  /** A descending page of a sound store is a page under the flipped order: at most
      `limit` stored keys, each below the cursor, in descending order, with none skipped. */
  lemma ReverseStorePage<K(!new), V>(s: Store<K, V>, lt: (K, K) -> bool, cursor: Option<K>, limit: nat)
    requires StrictTotalOrder(lt) && Sound(s, lt)
    ensures IsPage(s, Flip(lt), cursor, limit, ReversePage(s.keys, lt, cursor, limit))
  {
    ReversePageIsPage(s.keys, lt, cursor, limit);
    ReverseHasSameKeys(s.keys);
    var reversed := Store(Reverse(s.keys), s.entries);
    assert Sound(reversed, Flip(lt));
    StorePage(reversed, Flip(lt), cursor, limit);
  }

  // ---------------------------------------------------------------------------------
  // Reading a whole store page by page

  /** The keys of a list of entries. */
  function Project<K, R>(key: R -> K, rs: seq<R>): (ks: seq<K>)
    ensures |ks| == |rs| && forall i :: 0 <= i < |rs| ==> ks[i] == key(rs[i])
  {
    seq(|rs|, i requires 0 <= i < |rs| => key(rs[i]))
  }

  lemma ProjectAppend<K, R>(key: R -> K, a: seq<R>, b: seq<R>)
    ensures Project(key, a + b) == Project(key, a) + Project(key, b)
  {
    assert Project(key, a + b) == Project(key, a) + Project(key, b);
  }

  /** `fetch` answers every cursor with entries whose keys are that cursor's page of `ks`. */
  ghost predicate Pages<K(!new), R>(fetch: Option<K> -> seq<R>, key: R -> K, ks: seq<K>, lt: (K, K) -> bool, limit: nat) {
    forall cursor :: Project(key, fetch(cursor)) == Page(ks, lt, cursor, limit)
  }

  lemma WalkStep<K(!new), R>(fetch: Option<K> -> seq<R>, key: R -> K, ks: seq<K>, lt: (K, K) -> bool, limit: nat,
                             cursor: Option<K>)
    requires StrictTotalOrder(lt) && Ascending(ks, lt) && limit > 0 && Pages(fetch, key, ks, lt, limit)
    ensures var page := fetch(cursor);
      && (page == [] ==> After(ks, lt, cursor) == [])
      && (page != [] ==>
            After(ks, lt, cursor) == Project(key, page) + After(ks, lt, Some(key(page[|page| - 1])))
            && |After(ks, lt, Some(key(page[|page| - 1])))| < |After(ks, lt, cursor)|)
  {
    var page := fetch(cursor);
    assert Project(key, page) == Page(ks, lt, cursor, limit);
    PageSplit(ks, lt, cursor, limit);
    if page != [] {
      assert Project(key, page)[|page| - 1] == key(page[|page| - 1]);
    }
  }

  /** What a client collects by fetching from `cursor`, then from the key of the last entry
      of each page, until a page comes back empty. */
  ghost function Walk<K(!new), R>(fetch: Option<K> -> seq<R>, key: R -> K, ks: seq<K>, lt: (K, K) -> bool, limit: nat,
                                  cursor: Option<K>): seq<R>
    requires StrictTotalOrder(lt) && Ascending(ks, lt) && limit > 0 && Pages(fetch, key, ks, lt, limit)
    decreases |After(ks, lt, cursor)|
  {
    var page := fetch(cursor);
    if page == [] then []
    else
      WalkStep(fetch, key, ks, lt, limit, cursor);
      page + Walk(fetch, key, ks, lt, limit, Some(key(page[|page| - 1])))
  }

  /** The walk meets every key beyond the starting cursor exactly once, in order. */
  lemma {:induction false} WalkCovers<K(!new), R>(fetch: Option<K> -> seq<R>, key: R -> K, ks: seq<K>, lt: (K, K) -> bool,
                                                  limit: nat, cursor: Option<K>)
    requires StrictTotalOrder(lt) && Ascending(ks, lt) && limit > 0 && Pages(fetch, key, ks, lt, limit)
    ensures Project(key, Walk(fetch, key, ks, lt, limit, cursor)) == After(ks, lt, cursor)
    decreases |After(ks, lt, cursor)|
  {
    var page := fetch(cursor);
    WalkStep(fetch, key, ks, lt, limit, cursor);
    if page != [] {
      var next := Some(key(page[|page| - 1]));
      WalkCovers(fetch, key, ks, lt, limit, next);
      ProjectAppend(key, page, Walk(fetch, key, ks, lt, limit, next));
    }
  }

  /** Starting from no cursor, the walk meets every key exactly once, in order. */
  lemma WalkAll<K(!new), R>(fetch: Option<K> -> seq<R>, key: R -> K, ks: seq<K>, lt: (K, K) -> bool, limit: nat)
    requires StrictTotalOrder(lt) && Ascending(ks, lt) && limit > 0 && Pages(fetch, key, ks, lt, limit)
    ensures Project(key, Walk(fetch, key, ks, lt, limit, None)) == ks
  {
    WalkCovers(fetch, key, ks, lt, limit, None);
    AllBeyond(ks, lt, None);
  }

  /** Whatever holds of every entry of every page holds of every entry of the walk. */
  lemma {:induction false} WalkKeeps<K(!new), R>(fetch: Option<K> -> seq<R>, key: R -> K, ks: seq<K>, lt: (K, K) -> bool,
                                                 limit: nat, cursor: Option<K>, keep: R -> bool)
    requires StrictTotalOrder(lt) && Ascending(ks, lt) && limit > 0 && Pages(fetch, key, ks, lt, limit)
    requires forall c, r :: r in fetch(c) ==> keep(r)
    ensures forall r :: r in Walk(fetch, key, ks, lt, limit, cursor) ==> keep(r)
    decreases |After(ks, lt, cursor)|
  {
    var page := fetch(cursor);
    WalkStep(fetch, key, ks, lt, limit, cursor);
    if page != [] {
      WalkKeeps(fetch, key, ks, lt, limit, Some(key(page[|page| - 1])), keep);
    }
  }
}
