/** The recent-directories update that `set_directory` and `browse_directory` of
    `main.py` and `set_directory` of `modules/directory_handler.py` perform: the chosen
    directory moves to the front and the list keeps at most five entries. */
module RecentDirectories {
  import opened Strings

  const MaxRecent := 5

  /** Python's `list.remove(x)`: the first occurrence goes. */
  function RemoveFirst(xs: seq<string>, x: string): seq<string>
    decreases |xs|
  {
    if xs == [] then []
    else if xs[0] == x then xs[1..]
    else [xs[0]] + RemoveFirst(xs[1..], x)
  }

  /** The position of the first occurrence of `x`. */
  function FirstIndex(xs: seq<string>, x: string): (i: nat)
    requires x in xs
    ensures i < |xs| && xs[i] == x && x !in xs[..i]
    decreases |xs|
  {
    if xs[0] == x then 0 else 1 + FirstIndex(xs[1..], x)
  }

  /** The list after `d` is chosen: removed where it was, inserted at the front, and
      cut to the first five entries. */
  function UpdateRecent(recent: seq<string>, d: string): seq<string> {
    var moved := [d] + (if d in recent then RemoveFirst(recent, d) else recent);
    if |moved| > MaxRecent then moved[..MaxRecent] else moved
  }

  /** The entries other than the chosen one, in their old order. */
  function Others(recent: seq<string>, d: string): seq<string> {
    if d in recent then RemoveFirst(recent, d) else recent
  }

  /** `remove` cuts out exactly the first occurrence. */
  lemma {:induction false} RemoveFirstShape(xs: seq<string>, x: string)
    requires x in xs
    ensures RemoveFirst(xs, x) == xs[..FirstIndex(xs, x)] + xs[FirstIndex(xs, x) + 1..]
    decreases |xs|
  {
    if xs[0] != x {
      RemoveFirstShape(xs[1..], x);
      var i := FirstIndex(xs[1..], x);
      assert xs[1..][..i] == xs[1..i + 1];
      assert xs[1..][i + 1..] == xs[i + 2..];
      assert [xs[0]] + xs[1..i + 1] == xs[..i + 1];
    }
  }

  /** `remove` shifts the entries after the first occurrence down by one. */
  lemma RemoveFirstAt(xs: seq<string>, x: string)
    requires x in xs
    ensures |RemoveFirst(xs, x)| == |xs| - 1
    ensures forall k :: 0 <= k < FirstIndex(xs, x) ==> RemoveFirst(xs, x)[k] == xs[k]
    ensures forall k :: FirstIndex(xs, x) <= k < |xs| - 1 ==> RemoveFirst(xs, x)[k] == xs[k + 1]
  {
    RemoveFirstShape(xs, x);
  }

  /** Leaving out the entry at `i` of a list without repeats gives a list without repeats
      that lacks that entry. */
  lemma DropIndexDistinct(xs: seq<string>, r: seq<string>, i: nat)
    requires i < |xs| && Distinct(xs) && |r| == |xs| - 1
    requires forall k :: 0 <= k < i ==> r[k] == xs[k]
    requires forall k :: i <= k < |r| ==> r[k] == xs[k + 1]
    ensures Distinct(r) && xs[i] !in r
  {
    forall k | 0 <= k < |r|
      ensures r[k] != xs[i]
    {
      var k' := if k < i then k else k + 1;
      assert r[k] == xs[k'] && k' != i;
    }
    forall k, l | 0 <= k < l < |r|
      ensures r[k] != r[l]
    {
      var k' := if k < i then k else k + 1;
      var l' := if l < i then l else l + 1;
      assert k' < l';
      assert r[k] == xs[k'] && r[l] == xs[l'];
    }
  }

  /** Removing an occurrence keeps the other entries distinct and drops `x` entirely. */
  lemma RemoveFirstDistinct(xs: seq<string>, x: string)
    requires x in xs && Distinct(xs)
    ensures Distinct(RemoveFirst(xs, x)) && x !in RemoveFirst(xs, x)
    ensures |RemoveFirst(xs, x)| == |xs| - 1
  {
    RemoveFirstAt(xs, x);
    DropIndexDistinct(xs, RemoveFirst(xs, x), FirstIndex(xs, x));
  }

  /** The chosen directory comes first; at most five entries remain, and exactly five when
      there are that many to keep. */
  lemma UpdateRecentFront(recent: seq<string>, d: string)
    ensures |UpdateRecent(recent, d)| >= 1 && UpdateRecent(recent, d)[0] == d
    ensures |UpdateRecent(recent, d)| <= MaxRecent
    ensures |UpdateRecent(recent, d)| == if 1 + |Others(recent, d)| > MaxRecent then MaxRecent else 1 + |Others(recent, d)|
  {
  }

  /** Behind the chosen directory the others follow in their old order, with only those
      beyond the fifth place dropped. */
  lemma UpdateRecentKeepsOrder(recent: seq<string>, d: string)
    ensures UpdateRecent(recent, d)[1..] <= Others(recent, d)
    ensures d in recent ==>
      Others(recent, d) == recent[..FirstIndex(recent, d)] + recent[FirstIndex(recent, d) + 1..]
    ensures d !in recent ==> Others(recent, d) == recent
  {
    var r := UpdateRecent(recent, d);
    var o := Others(recent, d);
    assert ([d] + o)[1..] == o;
    if |[d] + o| > MaxRecent {
      assert r[1..] == o[..MaxRecent - 1];
    }
    if d in recent {
      RemoveFirstShape(recent, d);
    }
  }

  /** A list without repeats stays without repeats. */
  lemma UpdateRecentDistinct(recent: seq<string>, d: string)
    requires Distinct(recent)
    ensures Distinct(UpdateRecent(recent, d))
  {
    var o := Others(recent, d);
    if d in recent {
      RemoveFirstDistinct(recent, d);
    }
    var moved := [d] + o;
    forall k, l | 0 <= k < l < |moved|
      ensures moved[k] != moved[l]
    {
      assert moved[l] == o[l - 1];
      if k > 0 {
        assert moved[k] == o[k - 1];
      } else {
        assert o[l - 1] in o;
      }
    }
  }

  /** Choosing the same directory again changes nothing. */
  lemma UpdateRecentIdempotent(recent: seq<string>, d: string)
    ensures UpdateRecent(UpdateRecent(recent, d), d) == UpdateRecent(recent, d)
  {
    var r := UpdateRecent(recent, d);
    UpdateRecentFront(recent, d);
    assert d in r;
    assert RemoveFirst(r, d) == r[1..];
    assert [d] + r[1..] == r;
  }
}
