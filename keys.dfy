/** The orders in which the contract's maps store their keys: proposal ids as u64 numbers,
    addresses byte-wise (compared here character by character, which for UTF-8 text is the
    same order), and ballot keys (proposal id, voter) by id first and voter second. */
module Keys {
  import opened Ints
  import opened Ordered

  function IdLess(a: Uint64, b: Uint64): bool {
    a < b
  }

  /** Lexicographic order on addresses; a proper prefix comes first. */
  predicate AddrLess(a: string, b: string) {
    if a == [] then b != []
    else if b == [] then false
    else a[0] < b[0] || (a[0] == b[0] && AddrLess(a[1..], b[1..]))
  }

  type BallotKey = (Uint64, string)

  function BallotKeyLess(a: BallotKey, b: BallotKey): bool {
    a.0 < b.0 || (a.0 == b.0 && AddrLess(a.1, b.1))
  }

  lemma IdOrder()
    ensures StrictTotalOrder(IdLess)
  {
  }

  lemma {:induction false} AddrLessIrreflexive(a: string)
    ensures !AddrLess(a, a)
  {
    if a != [] {
      AddrLessIrreflexive(a[1..]);
    }
  }

  lemma {:induction false} AddrLessTransitive(a: string, b: string, c: string)
    requires AddrLess(a, b) && AddrLess(b, c)
    ensures AddrLess(a, c)
  {
    if a != [] && a[0] == b[0] && b[0] == c[0] {
      AddrLessTransitive(a[1..], b[1..], c[1..]);
    }
  }

  lemma {:induction false} AddrLessTotal(a: string, b: string)
    requires a != b
    ensures AddrLess(a, b) || AddrLess(b, a)
  {
    if a != [] && b != [] && a[0] == b[0] {
      assert a == [a[0]] + a[1..] && b == [b[0]] + b[1..];
      AddrLessTotal(a[1..], b[1..]);
    }
  }

  lemma AddrOrder()
    ensures StrictTotalOrder(AddrLess)
  {
    forall a ensures !AddrLess(a, a) {
      AddrLessIrreflexive(a);
    }
    forall a, b, c | AddrLess(a, b) && AddrLess(b, c) ensures AddrLess(a, c) {
      AddrLessTransitive(a, b, c);
    }
    forall a, b | a != b ensures AddrLess(a, b) || AddrLess(b, a) {
      AddrLessTotal(a, b);
    }
  }

  lemma BallotKeyOrder()
    ensures StrictTotalOrder(BallotKeyLess)
  {
    AddrOrder();
    forall a, b | a != b ensures BallotKeyLess(a, b) || BallotKeyLess(b, a) {
      if a.0 == b.0 {
        assert a.1 != b.1;
      }
    }
  }

  /** `Map::prefix(id)`: the voters holding a ballot on proposal `id`, in key order. */
  function PrefixKeys(ks: seq<BallotKey>, id: Uint64): (r: seq<string>)
    ensures forall a :: a in r <==> (id, a) in ks
  {
    if ks == [] then []
    else if ks[0].0 == id then [ks[0].1] + PrefixKeys(ks[1..], id)
    else PrefixKeys(ks[1..], id)
  }

  /** The voters under one proposal id come out sorted when the ballot keys are. */
  lemma {:induction false} PrefixAscending(ks: seq<BallotKey>, id: Uint64)
    requires Ascending(ks, BallotKeyLess)
    ensures Ascending(PrefixKeys(ks, id), AddrLess)
  {
    if ks != [] {
      PrefixAscending(ks[1..], id);
      if ks[0].0 == id {
        var r := PrefixKeys(ks, id);
        forall i, j | 0 <= i < j < |r| ensures AddrLess(r[i], r[j]) {
          if i == 0 {
            assert r[j] in PrefixKeys(ks[1..], id);
            assert (id, r[j]) in ks[1..];
            var m :| 1 <= m < |ks| && ks[m] == (id, r[j]);
            assert BallotKeyLess(ks[0], ks[m]);
          }
        }
      }
    }
  }
}
