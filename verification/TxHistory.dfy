/** The order of the saved transaction history. */
module TxHistory {
  type Bytes = seq<nat>

  datatype Ordering = Less | Equal | Greater {
    function Reverse(): Ordering {
      match this
      case Less => Greater
      case Equal => Equal
      case Greater => Less
    }
  }

  datatype Tx = Tx(height: nat, id: Bytes, details: nat)

  function CompareNat(a: nat, b: nat): Ordering {
    if a < b then Less else if a == b then Equal else Greater
  }

  /** Byte strings are compared like words in a dictionary. */
  function CompareBytes(a: Bytes, b: Bytes): Ordering {
    if a == [] && b == [] then Equal
    else if a == [] then Less
    else if b == [] then Greater
    else if a[0] != b[0] then CompareNat(a[0], b[0])
    else CompareBytes(a[1..], b[1..])
  }

  /** Height 0 is a transaction that is not in a block yet; it comes first. */
  function CompareTransactions(a: Tx, b: Tx): Ordering {
    if a.height == b.height then CompareBytes(a.id, b.id)
    else if a.height == 0 then Less
    else if b.height == 0 then Greater
    else CompareNat(b.height, a.height)
  }

  // ---------- a total order ----------

  lemma {:induction false} CompareBytesReverses(a: Bytes, b: Bytes)
    ensures CompareBytes(b, a) == CompareBytes(a, b).Reverse()
    ensures CompareBytes(a, b) == Equal <==> a == b
  {
    if a != [] && b != [] {
      CompareBytesReverses(a[1..], b[1..]);
      assert a == [a[0]] + a[1..] && b == [b[0]] + b[1..];
    }
  }

  lemma {:induction false} CompareBytesTransitive(a: Bytes, b: Bytes, c: Bytes)
    requires CompareBytes(a, b) == Less && CompareBytes(b, c) == Less
    ensures CompareBytes(a, c) == Less
  {
    if a != [] && b != [] && c != [] && a[0] == b[0] == c[0] {
      CompareBytesTransitive(a[1..], b[1..], c[1..]);
    }
  }

  /** Position of a height in the history: the newest first, with 0 newer than any block of the 64-bit range. */
  function Newness(height: nat): nat {
    if height == 0 then 0x1_0000_0000_0000_0000 else height
  }

  /** The order by newness and then by id. */
  predicate Before(a: Tx, b: Tx) {
    Newness(a.height) > Newness(b.height)
        || (Newness(a.height) == Newness(b.height) && CompareBytes(a.id, b.id) == Less)
  }

  predicate SameKey(a: Tx, b: Tx) {
    a.height == b.height && a.id == b.id
  }

  predicate InRange(tx: Tx) {
    tx.height < 0x1_0000_0000_0000_0000
  }

  /** The comparison is a strict total order on (height, id): newest first, then by id. */
  lemma ComparisonIsTotalOrder(a: Tx, b: Tx, c: Tx)
    requires InRange(a) && InRange(b) && InRange(c)
    ensures CompareTransactions(a, b) == Less <==> Before(a, b)
    ensures CompareTransactions(a, b) == Equal <==> SameKey(a, b)
    ensures CompareTransactions(b, a) == CompareTransactions(a, b).Reverse()
    ensures Before(a, b) && Before(b, c) ==> Before(a, c)
  {
    CompareBytesReverses(a.id, b.id);
    if CompareBytes(a.id, b.id) == Less && CompareBytes(b.id, c.id) == Less {
      CompareBytesTransitive(a.id, b.id, c.id);
    }
  }

  /** Dictionary order: at the first difference the smaller byte is less, and a proper prefix is less. */
  ghost predicate LessAt(a: Bytes, b: Bytes, k: nat) {
    && k <= |a| && k < |b| && a[..k] == b[..k]
    && (k < |a| ==> a[k] < b[k])
  }

  lemma {:induction false} CompareBytesIsDictionaryOrder(a: Bytes, b: Bytes)
    ensures CompareBytes(a, b) == Less <==> exists k: nat :: LessAt(a, b, k)
  {
    if a == [] {
      assert b != [] ==> LessAt(a, b, 0);
    } else if b != [] {
      if a[0] != b[0] {
        assert a[0] < b[0] ==> LessAt(a, b, 0);
        forall k: nat | LessAt(a, b, k) ensures k == 0 {
          LessAtDifference(a, b, k);
        }
      } else {
        CompareBytesIsDictionaryOrder(a[1..], b[1..]);
        forall k: nat ensures LessAt(a, b, k + 1) <==> LessAt(a[1..], b[1..], k) {
          LessAtTail(a, b, k);
        }
        assert !LessAt(a, b, 0);
        if k: nat :| LessAt(a, b, k) {
          var m: nat := k - 1;
          assert LessAt(a, b, m + 1) <==> LessAt(a[1..], b[1..], m);
        }
        if k: nat :| LessAt(a[1..], b[1..], k) {
          assert LessAt(a, b, k + 1);
        }
      }
    }
  }

  lemma LessAtDifference(a: Bytes, b: Bytes, k: nat)
    requires a != [] && b != [] && LessAt(a, b, k)
    ensures a[0] != b[0] ==> k == 0
  {
    if k > 0 {
      assert a[..k][0] == a[0] && b[..k][0] == b[0];
    }
  }

  lemma LessAtTail(a: Bytes, b: Bytes, k: nat)
    requires a != [] && b != [] && a[0] == b[0]
    ensures LessAt(a, b, k + 1) <==> LessAt(a[1..], b[1..], k)
  {
    if k < |a| && k < |b| {
      assert a[..k + 1] == [a[0]] + a[1..][..k] && b[..k + 1] == [b[0]] + b[1..][..k];
      if a[..k + 1] == b[..k + 1] {
        assert a[1..][..k] == a[..k + 1][1..] && b[1..][..k] == b[..k + 1][1..];
      }
    }
  }

  /** The order written out: transactions without a block first, then the highest block, then the smallest id. */
  lemma ComparisonSpelledOut(a: Tx, b: Tx)
    ensures CompareTransactions(a, b) == Less
       <==> || (a.height == 0 && b.height != 0)
            || (b.height != 0 && a.height > b.height)
            || (a.height == b.height && exists k: nat :: LessAt(a.id, b.id, k))
  {
    CompareBytesIsDictionaryOrder(a.id, b.id);
  }

  // ---------- the saved history ----------

  ghost predicate Sorted(history: seq<Tx>) {
    forall i, j :: 0 <= i < j < |history| ==> CompareTransactions(history[i], history[j]) != Greater
  }

  /** No two different transactions share height and id. */
  ghost predicate KeysIdentify(history: seq<Tx>) {
    forall a, b :: a in history && b in history && SameKey(a, b) ==> a == b
  }

  ghost predicate AllInRange(history: seq<Tx>) {
    forall i :: 0 <= i < |history| ==> InRange(history[i])
  }

  lemma SortedHeadsAgree(a: seq<Tx>, b: seq<Tx>)
    requires Sorted(a) && Sorted(b) && multiset(a) == multiset(b)
    requires KeysIdentify(a) && AllInRange(a) && a != []
    ensures b != [] && a[0] == b[0]
  {
    assert a[0] in multiset(a);
    assert a[0] in b;
    var j :| 0 <= j < |b| && b[j] == a[0];
    assert b[0] in multiset(b);
    assert b[0] in a;
    var i :| 0 <= i < |a| && a[i] == b[0];
    ComparisonIsTotalOrder(a[0], a[i], a[0]);
  }

  /** A history has one sorted form. So the saved file does not depend on the order in which transactions were found. */
  lemma {:induction false} SortedFormIsUnique(a: seq<Tx>, b: seq<Tx>)
    requires Sorted(a) && Sorted(b) && multiset(a) == multiset(b)
    requires KeysIdentify(a) && AllInRange(a)
    ensures a == b
  {
    if a == [] {
      assert |multiset(b)| == |b|;
    } else {
      SortedHeadsAgree(a, b);
      TailOf(a);
      TailOf(b);
      SortedFormIsUnique(a[1..], b[1..]);
    }
  }

  lemma TailOf(a: seq<Tx>)
    requires a != [] && Sorted(a)
    ensures a == [a[0]] + a[1..]
    ensures Sorted(a[1..]) && multiset(a[1..]) == multiset(a) - multiset{a[0]}
    ensures KeysIdentify(a) ==> KeysIdentify(a[1..])
    ensures AllInRange(a) ==> AllInRange(a[1..])
  {
    assert a == [a[0]] + a[1..];
  }

  function Insert(tx: Tx, history: seq<Tx>): (r: seq<Tx>)
    ensures multiset(r) == multiset(history) + multiset{tx}
  {
    if history == [] || CompareTransactions(tx, history[0]) != Greater then [tx] + history
    else
      assert history == [history[0]] + history[1..];
      [history[0]] + Insert(tx, history[1..])
  }

  /** A sorted form exists. */
  function SortedForm(history: seq<Tx>): (r: seq<Tx>)
    ensures multiset(r) == multiset(history)
  {
    if history == [] then []
    else
      assert history == [history[0]] + history[1..];
      Insert(history[0], SortedForm(history[1..]))
  }

  lemma {:induction false} InsertKeepsSorted(tx: Tx, history: seq<Tx>)
    requires Sorted(history) && InRange(tx) && AllInRange(history)
    ensures Sorted(Insert(tx, history))
  {
    var r := Insert(tx, history);
    if history == [] {
    } else if CompareTransactions(tx, history[0]) != Greater {
      forall j | 0 <= j < |history| ensures CompareTransactions(tx, history[j]) != Greater {
        NotGreaterTransitive(tx, history[0], history[j]);
      }
    } else {
      InsertKeepsSorted(tx, history[1..]);
      var tail := Insert(tx, history[1..]);
      forall j | 0 <= j < |tail| ensures CompareTransactions(history[0], tail[j]) != Greater {
        assert tail[j] in multiset(history[1..]) + multiset{tx};
        ComparisonIsTotalOrder(history[0], tx, tx);
        ComparisonIsTotalOrder(tx, history[0], tx);
      }
    }
  }

  lemma NotGreaterTransitive(a: Tx, b: Tx, c: Tx)
    requires InRange(a) && InRange(b) && InRange(c)
    requires CompareTransactions(a, b) != Greater && (b == c || CompareTransactions(b, c) != Greater)
    ensures CompareTransactions(a, c) != Greater
  {
    ComparisonIsTotalOrder(a, b, c);
    ComparisonIsTotalOrder(b, c, a);
    ComparisonIsTotalOrder(a, c, b);
  }

  /** Whatever order the transactions come in, the same history is saved. */
  lemma {:induction false} SortedFormIsSorted(history: seq<Tx>)
    requires AllInRange(history)
    ensures Sorted(SortedForm(history))
  {
    if history != [] {
      SortedFormIsSorted(history[1..]);
      var tail := SortedForm(history[1..]);
      SameElements(history[1..], tail);
      InsertKeepsSorted(history[0], tail);
    }
  }

  /** So saving is a function of the set of transactions. */
  lemma SavedHistoryIsOrderIndependent(found: seq<Tx>, other: seq<Tx>)
    requires multiset(found) == multiset(other)
    requires KeysIdentify(found) && AllInRange(found)
    ensures SortedForm(found) == SortedForm(other)
  {
    SameElements(found, other);
    SameElements(found, SortedForm(found));
    SortedFormIsSorted(found);
    SortedFormIsSorted(other);
    SortedFormIsUnique(SortedForm(found), SortedForm(other));
  }

  lemma SameElements(a: seq<Tx>, b: seq<Tx>)
    requires multiset(a) == multiset(b)
    ensures forall tx :: tx in a <==> tx in b
    ensures AllInRange(a) <==> AllInRange(b)
  {
    forall tx ensures tx in a <==> tx in b {
      assert tx in multiset(a) <==> tx in multiset(b);
    }
    assert AllInRange(a) <==> forall tx :: tx in a ==> InRange(tx);
    assert AllInRange(b) <==> forall tx :: tx in b ==> InRange(tx);
  }
}
