/** The small pieces of Qt's container vocabulary the registry and the plugin rely on:
    a nullable result (a returned pointer that may be NULL) and QList::removeOne. */
module Collections {

  datatype Option<+T> = None | Some(value: T)

  /** Position of the first element equal to x, or |s| when there is none. */
  function IndexOf<T(==)>(s: seq<T>, x: T): (k: nat)
    ensures k <= |s|
    ensures k < |s| ==> s[k] == x
    ensures forall j :: 0 <= j < k ==> s[j] != x
  {
    if s == [] then 0
    else if s[0] == x then 0
    else 1 + IndexOf(s[1..], x)
  }

  /** QList::removeOne: drops the first element equal to x; a list without x is returned as it is. */
  function RemoveFirst<T(==)>(s: seq<T>, x: T): (r: seq<T>)
    ensures x in s ==> |r| == |s| - 1
    ensures x !in s ==> r == s
  {
    var k := IndexOf(s, x);
    if k == |s| then s else s[..k] + s[k + 1..]
  }

  /** Only the first occurrence goes: everything before it and everything after it stays, in order. */
  lemma RemoveFirstSplit<T>(a: seq<T>, x: T, b: seq<T>)
    requires x !in a
    ensures RemoveFirst(a + [x] + b, x) == a + b
  {
    var s := a + [x] + b;
    var k := IndexOf(s, x);
    assert s[|a|] == x;
    assert k == |a|;
    assert s[..k] == a && s[k + 1..] == b;
  }

  /** RemoveFirst at the index of the first occurrence. */
  lemma RemoveFirstAt<T>(s: seq<T>, x: T, k: nat)
    requires k < |s| && s[k] == x && x !in s[..k]
    ensures RemoveFirst(s, x) == s[..k] + s[k + 1..]
  {
    assert s == s[..k] + [x] + s[k + 1..];
    RemoveFirstSplit(s[..k], x, s[k + 1..]);
  }

  /** Appending a fresh element and then removing it gives the list back. */
  lemma AppendThenRemoveFirst<T>(s: seq<T>, x: T)
    requires x !in s
    ensures RemoveFirst(s + [x], x) == s
  {
    RemoveFirstSplit(s, x, []);
    assert s + [x] + [] == s + [x];
  }

  /** Appending an element already held and then removing its first occurrence moves that
      occurrence to the end. */
  lemma AppendThenRemoveFirstHeld<T>(a: seq<T>, x: T, b: seq<T>)
    requires x !in a
    ensures RemoveFirst(a + [x] + b + [x], x) == a + b + [x]
  {
    RemoveFirstSplit(a, x, b + [x]);
    assert a + [x] + b + [x] == a + [x] + (b + [x]);
    assert a + (b + [x]) == a + b + [x];
  }

  /** Appending any element and then removing its first occurrence keeps the contents. */
  lemma AppendThenRemoveFirstKeepsContents<T>(s: seq<T>, x: T)
    ensures multiset(RemoveFirst(s + [x], x)) == multiset(s)
  {
    if x in s {
      var k := IndexOf(s, x);
      var a, b := s[..k], s[k + 1..];
      assert s == a + [x] + b;
      AppendThenRemoveFirstHeld(a, x, b);
      calc {
        multiset(a + b + [x]);
        multiset(a) + multiset(b) + multiset{x};
        multiset(a + [x] + b);
      }
    } else {
      AppendThenRemoveFirst(s, x);
    }
  }
}
