/**
 * The subscriber registry of `RiceFieldBot` (main.py): a list of chat ids that
 * `add_subscriber` appends to, `remove_subscriber` deletes from, and the
 * status command queries. Every change is followed by a save to the subscriber
 * file; the file itself is represented by a ghost copy of the list, and a save
 * is taken to succeed.
 */
module Subscribers {

  /** At-most-once membership: what subscribing is meant to maintain. */
  predicate NoDuplicates(s: seq<int>) {
    forall i, j :: 0 <= i < j < |s| ==> s[i] != s[j]
  }

  /** Position of the first occurrence of `x`, the one `list.remove` deletes. */
  function FirstIndex(s: seq<int>, x: int): (i: nat)
    requires x in s
    ensures i < |s| && s[i] == x && x !in s[..i]
  {
    if s[0] == x then 0 else 1 + FirstIndex(s[1..], x)
  }

  /**
   * Python's `list.remove(x)` on a list holding `x`: exactly one element goes,
   * the first `x`, and the others keep their order.
   */
  function RemoveFirst(s: seq<int>, x: int): (r: seq<int>)
    requires x in s
    ensures |r| == |s| - 1
    ensures multiset(r) == multiset(s) - multiset{x}
    ensures exists i :: 0 <= i < |s| && s[i] == x && x !in s[..i] && r == s[..i] + s[i + 1..]
  {
    var i := FirstIndex(s, x);
    assert s == s[..i] + [s[i]] + s[i + 1..];
    s[..i] + s[i + 1..]
  }

  /** The list after `add_subscriber(x)`. */
  function AfterAdd(s: seq<int>, x: int): (r: seq<int>)
    ensures x in r
    ensures |s| <= |r| <= |s| + 1 && r[..|s|] == s
    ensures multiset(r) == if x in s then multiset(s) else multiset(s) + multiset{x}
  {
    if x in s then s else s + [x]
  }

  /** The list after `remove_subscriber(x)`. */
  function AfterRemove(s: seq<int>, x: int): (r: seq<int>)
    ensures |r| == if x in s then |s| - 1 else |s|
    ensures multiset(r) == multiset(s) - multiset{x}
    ensures x !in s ==> r == s
  {
    if x in s then RemoveFirst(s, x) else s
  }

  /** Adding makes `x` a member and grows the list by one exactly when `x` was absent. */
  lemma AddMembership(s: seq<int>, x: int)
    ensures x in AfterAdd(s, x)
    ensures forall y :: y in AfterAdd(s, x) <==> y in s || y == x
    ensures |AfterAdd(s, x)| == if x in s then |s| else |s| + 1
  {
  }

  /** Adding the same id twice leaves the list as the first add left it. */
  lemma AddTwiceIsAddOnce(s: seq<int>, x: int)
    ensures AfterAdd(AfterAdd(s, x), x) == AfterAdd(s, x)
    ensures |AfterAdd(AfterAdd(s, x), x)| == |AfterAdd(s, x)|
  {
    AddMembership(s, x);
  }

  /** Adding never introduces a duplicate. */
  lemma {:induction false} AddKeepsNoDuplicates(s: seq<int>, x: int)
    requires NoDuplicates(s)
    ensures NoDuplicates(AfterAdd(s, x))
  {
    if x !in s {
      var r := s + [x];
      forall i, j | 0 <= i < j < |r| ensures r[i] != r[j] {
        if j == |s| {
          assert r[i] == s[i];
        }
      }
    }
  }

  /** Element `k` of the shortened list is element `k` or `k + 1` of the original. */
  lemma RemoveFirstShifts(s: seq<int>, x: int, k: int)
    requires x in s && 0 <= k < |s| - 1
    ensures RemoveFirst(s, x)[k] == s[if k < FirstIndex(s, x) then k else k + 1]
  {
    var i := FirstIndex(s, x);
    assert RemoveFirst(s, x) == s[..i] + s[i + 1..];
  }

  /** On a duplicate-free list, removing deletes the only copy and keeps the list duplicate-free. */
  lemma {:induction false} RemoveKeepsNoDuplicates(s: seq<int>, x: int)
    requires NoDuplicates(s)
    ensures NoDuplicates(AfterRemove(s, x))
    ensures forall y :: y in AfterRemove(s, x) <==> y in s && y != x
  {
    if x in s {
      var i := FirstIndex(s, x);
      var r := RemoveFirst(s, x);
      forall a, b | 0 <= a < b < |r| ensures r[a] != r[b] {
        RemoveFirstShifts(s, x, a);
        RemoveFirstShifts(s, x, b);
      }
      forall y | y in r ensures y in s && y != x {
        var k :| 0 <= k < |r| && r[k] == y;
        RemoveFirstShifts(s, x, k);
      }
      forall y | y in s && y != x ensures y in r {
        var k :| 0 <= k < |s| && s[k] == y;
        var k' := if k < i then k else k - 1;
        RemoveFirstShifts(s, x, k');
      }
    }
  }

  /** Subscribing a new id and then unsubscribing it restores the original list. */
  lemma AddThenRemoveRestores(s: seq<int>, x: int)
    requires x !in s
    ensures AfterRemove(AfterAdd(s, x), x) == s
  {
    var t := s + [x];
    var i := FirstIndex(t, x);
    assert i == |s|;
    assert t[..i] == s;
  }

  /**
   * Without the at-most-once invariant a removal leaves later copies behind:
   * the subscriber file is loaded as written, so duplicates can reach the list.
   */
  lemma RemoveLeavesLaterCopy(s: seq<int>, x: int)
    requires multiset(s)[x] >= 2
    ensures x in AfterRemove(s, x)
    ensures multiset(AfterRemove(s, x))[x] == multiset(s)[x] - 1
  {
    assert x in multiset(s);
    assert multiset(AfterRemove(s, x))[x] >= 1;
  }

  class SubscriberRegistry {
    /** `self.subscribers`, in insertion order. */
    var subscribers: seq<int>
    /** The subscriber file, taken to hold the list as last loaded or saved. */
    ghost var saved: seq<int>

    /** The file holds the list as last saved (a failed write is not represented). */
    ghost predicate Valid()
      reads this
    {
      saved == subscribers
    }

    /** `RiceFieldBot()` with the ids `load_subscribers` read from the file. */
    constructor (loaded: seq<int>)
      ensures Valid()
      ensures subscribers == loaded
    {
      subscribers := loaded;
      saved := loaded;
    }

    /** `save_subscribers`: rewrite the file from the list. */
    method SaveSubscribers()
      modifies this`saved
      ensures saved == subscribers
    {
      saved := subscribers;
    }

    /** `add_subscriber`: append `chatId` if absent; report whether it was appended. */
    method AddSubscriber(chatId: int) returns (added: bool)
      requires Valid()
      modifies this
      ensures Valid()
      ensures added <==> chatId !in old(subscribers)
      ensures added ==> subscribers == old(subscribers) + [chatId]
      ensures !added ==> subscribers == old(subscribers) && saved == old(saved)
      ensures subscribers == AfterAdd(old(subscribers), chatId)
    {
      if chatId !in subscribers {
        subscribers := subscribers + [chatId];
        SaveSubscribers();
        return true;
      }
      return false;
    }

    /** `remove_subscriber`: delete the first `chatId` if present; report whether one was. */
    method RemoveSubscriber(chatId: int) returns (removed: bool)
      requires Valid()
      modifies this
      ensures Valid()
      ensures removed <==> chatId in old(subscribers)
      ensures removed ==> subscribers == RemoveFirst(old(subscribers), chatId)
      ensures !removed ==> subscribers == old(subscribers) && saved == old(saved)
      ensures subscribers == AfterRemove(old(subscribers), chatId)
    {
      if chatId in subscribers {
        subscribers := RemoveFirst(subscribers, chatId);
        SaveSubscribers();
        return true;
      }
      return false;
    }

    /** The two facts `status_command` reports: own membership and the list size. */
    method Status(chatId: int) returns (active: bool, total: nat)
      ensures active <==> exists i :: 0 <= i < |subscribers| && subscribers[i] == chatId
      ensures total == |subscribers|
    {
      active := chatId in subscribers;
      total := |subscribers|;
    }
  }
}
