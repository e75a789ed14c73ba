/** Endpoint lists that are rotated so that the endpoint that last worked is tried first. */
module Endpoints {
  import opened Common

  ghost function Rotated<T>(list: seq<T>, k: nat): seq<T>
    requires k <= |list|
  {
    list[k..] + list[..k]
  }

  method RotateLeft<T>(list: array<T>, k: nat)
    requires k <= list.Length
    modifies list
    ensures list[..] == Rotated(old(list[..]), k)
  {
    var before := list[..];
    forall i | 0 <= i < list.Length {
      list[i] := if i + k < |before| then before[i + k] else before[i + k - |before|];
    }
    assert list[..] == Rotated(before, k);
  }

  /** Index of the first endpoint that works. */
  ghost function FirstWorking<T>(list: seq<T>, works: T -> bool): (i: nat)
    ensures i <= |list|
    ensures i < |list| ==> works(list[i])
    ensures forall j :: 0 <= j < i ==> !works(list[j])
  {
    if list == [] || works(list[0]) then 0 else 1 + FirstWorking(list[1..], works)
  }

  ghost function AfterAttempt<T>(list: seq<T>, works: T -> bool): seq<T> {
    var i := FirstWorking(list, works);
    if i < |list| then Rotated(list, i) else list
  }

  /** Tries the endpoints in order, once each, until one answers. */
  method Fetch<T>(list: array<T>, works: T -> bool) returns (chosen: Option<T>)
    modifies list
    ensures list[..] == AfterAttempt(old(list[..]), works)
    ensures chosen.Some? <==> exists e :: e in old(list[..]) && works(e)
    ensures chosen.Some? ==> list.Length > 0 && list[0] == chosen.value && works(chosen.value)
    ensures chosen.Some? ==> exists i ::
              && 0 <= i < list.Length && old(list[..])[i] == chosen.value
              && (forall j :: 0 <= j < i ==> !works(old(list[..])[j]))
              && list[..] == old(list[..])[i..] + old(list[..])[..i]
    ensures chosen.None? ==> list[..] == old(list[..])
  {
    var endpoints := list[..];
    for i := 0 to |endpoints|
      invariant list[..] == endpoints
      invariant forall j :: 0 <= j < i ==> !works(endpoints[j])
    {
      if works(endpoints[i]) {
        RotateLeft(list, i);
        assert FirstWorking(endpoints, works) == i;
        assert endpoints[i] in endpoints;
        return Some(endpoints[i]);
      }
    }
    assert FirstWorking(endpoints, works) == |endpoints|;
    chosen := None;
  }

  // ---------- over any number of attempts ----------

  ghost predicate IsRotationOf<T>(list: seq<T>, original: seq<T>) {
    exists k: nat :: k <= |original| && list == Rotated(original, k)
  }

  lemma RotatedAt<T>(list: seq<T>, k: nat, j: nat)
    requires k <= |list| && j < |list|
    ensures Rotated(list, k)[j] == if j + k < |list| then list[j + k] else list[j + k - |list|]
  {
  }

  lemma RotationsCompose<T>(original: seq<T>, k: nat, i: nat)
    requires k <= |original| && i <= |original|
    ensures IsRotationOf(Rotated(Rotated(original, k), i), original)
  {
    var n := if k + i <= |original| then k + i else k + i - |original|;
    var twice, once := Rotated(Rotated(original, k), i), Rotated(original, n);
    forall j | 0 <= j < |original| ensures twice[j] == once[j] {
      RotatedAt(Rotated(original, k), i, j);
      RotatedAt(original, n, j);
      RotatedAt(original, k, if j + i < |original| then j + i else j + i - |original|);
    }
    assert twice == once;
  }

  ghost function AfterAttempts<T>(list: seq<T>, attempts: seq<T -> bool>): seq<T> {
    if attempts == [] then list
    else AfterAttempt(AfterAttempts(list, attempts[..|attempts| - 1]), attempts[|attempts| - 1])
  }

  /**
   However often endpoints succeed and fail, the list stays a rotation of the original one: none is lost, none
   repeated.
   */
  lemma {:induction false} AlwaysARotation<T>(original: seq<T>, attempts: seq<T -> bool>)
    ensures IsRotationOf(AfterAttempts(original, attempts), original)
  {
    if attempts == [] {
      assert original == Rotated(original, 0);
    } else {
      var init, works := attempts[..|attempts| - 1], attempts[|attempts| - 1];
      AlwaysARotation(original, init);
      var list := AfterAttempts(original, init);
      var k: nat :| k <= |original| && list == Rotated(original, k);
      var i := FirstWorking(list, works);
      if i < |list| {
        RotationsCompose(original, k, i);
      }
    }
  }

  /** An endpoint that keeps working stays first, and keeps being chosen. */
  lemma WorkingEndpointStaysFirst<T>(list: seq<T>, works: T -> bool, later: T -> bool)
    requires exists e :: e in list && works(e)
    requires forall e :: works(e) ==> later(e)
    ensures AfterAttempt(AfterAttempt(list, works), later) == AfterAttempt(list, works)
  {
    var i := FirstWorking(list, works);
    var rotated := Rotated(list, i);
    assert rotated[0] == list[i];
    assert Rotated(rotated, 0) == rotated;
  }
}
