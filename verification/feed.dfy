/** Feed: one value to every subscriber, over a case list that is reordered and shortened in place while subscribers
    become ready or leave in any order. */
module Feeds {
  type Chan = nat

  /** A select case: the channel that announces removals, or a subscriber. */
  datatype Case = RemoveSub | Sub(chan: Chan)

  // ----- lists of cases -----

  /** The list without its i-th element. */
  function Without<T>(s: seq<T>, i: nat): seq<T>
    requires i < |s|
  {
    s[..i] + s[i + 1..]
  }

  lemma WithoutLoses<T>(s: seq<T>, i: nat)
    requires i < |s|
    ensures multiset(Without(s, i)) == multiset(s) - multiset{s[i]}
  {
    assert s == s[..i] + [s[i]] + s[i + 1..];
  }

  function Swapped<T>(s: seq<T>, i: nat, j: nat): seq<T>
    requires i < |s| && j < |s|
  {
    s[i := s[j]][j := s[i]]
  }

  lemma SwappedKeeps<T>(s: seq<T>, i: nat, j: nat)
    requires i < |s| && j < |s|
    ensures multiset(Swapped(s, i, j)) == multiset(s)
  {
  }

  // ----- a round of sending -----

  /** Midway through a send to the subscriptions `all`: s is the case list, whose first `active` cases are the unsent
      prefix. The list holds everybody who was not removed; whoever is behind the prefix got the value, and those who
      got it and those in the prefix are different subscriptions. */
  ghost predicate Round(s: seq<Case>, active: nat, delivered: seq<Case>, removed: seq<Case>, all: seq<Case>) {
    && 1 <= active <= |s| && s[0] == RemoveSub
    && multiset(s[1..]) + multiset(removed) == multiset(all)
    && multiset(s[active..]) <= multiset(delivered)
    && multiset(delivered) + multiset(s[1..active]) <= multiset(all)
  }

  /** The cases of the list in its two parts. */
  lemma TwoParts(s: seq<Case>, active: nat)
    requires 1 <= active <= |s|
    ensures multiset(s[1..]) == multiset(s[1..active]) + multiset(s[active..])
  {
    assert s[1..] == s[1..active] + s[active..];
  }

  lemma SwapLast(u: seq<Case>, k: nat)
    requires k < |u|
    ensures multiset(Swapped(u, k, |u| - 1)[..|u| - 1]) + multiset{u[k]} == multiset(u)
  {
    var w := Swapped(u, k, |u| - 1);
    SwappedKeeps(u, k, |u| - 1);
    assert w == w[..|u| - 1] + [u[k]];
  }

  lemma SwapSlices(s: seq<Case>, active: nat, i: nat)
    requires 1 <= i < active <= |s|
    ensures var t := Swapped(s, i, active - 1);
            && t[1..active - 1] == Swapped(s[1..active], i - 1, active - 2)[..active - 2]
            && t[active - 1..] == [s[i]] + s[active..]
  {
  }

  /** How the two parts change when case i is swapped behind the prefix. */
  lemma SendParts(s: seq<Case>, active: nat, i: nat)
    requires 1 <= i < active <= |s|
    ensures var t := Swapped(s, i, active - 1);
            && multiset(t[active - 1..]) == multiset{s[i]} + multiset(s[active..])
            && multiset(t[1..active - 1]) + multiset{s[i]} == multiset(s[1..active])
  {
    var u := s[1..active];
    assert u[i - 1] == s[i];
    hide Swapped;
    SwapSlices(s, active, i);
    SwapLast(u, i - 1);
  }

  lemma SendWhole(s: seq<Case>, active: nat, i: nat)
    requires 1 <= i < active <= |s|
    ensures multiset(Swapped(s, i, active - 1)[1..]) == multiset(s[1..])
  {
    var t := Swapped(s, i, active - 1);
    assert |t| == |s|;
    hide Swapped;
    SendParts(s, active, i);
    TwoParts(s, active);
    TwoParts(t, active - 1);
    Regroup(multiset(s[1..active]), multiset(s[active..]), multiset(t[1..active - 1]), multiset(t[active - 1..]), s[i]);
  }

  lemma Regroup(a: multiset<Case>, b: multiset<Case>, a': multiset<Case>, b': multiset<Case>, c: Case)
    requires a' + multiset{c} == a && b' == multiset{c} + b
    ensures a' + b' == a + b
  {
  }

  lemma WithoutBefore(s: seq<Case>, active: nat, i: nat)
    requires 1 <= i < active <= |s|
    ensures var t := Without(s, i); t[active - 1..] == s[active..] && t[1..active - 1] == Without(s[1..active], i - 1)
  {
    var t, u := Without(s, i), s[1..active];
    var left, right := s[1..i], s[i + 1..active];
    assert u[..i - 1] == left && u[i..] == right;
    assert t[1..active - 1] == left + right;
    assert t == s[..i] + right + s[active..];
  }

  lemma WithoutBehind(s: seq<Case>, active: nat, i: nat)
    requires 1 <= active <= i < |s|
    ensures var t := Without(s, i); t[1..active] == s[1..active] && t[active..] == Without(s[active..], i - active)
  {
    var t, v := Without(s, i), s[active..];
    var left, right := s[active..i], s[i + 1..];
    assert v[..i - active] == left && v[i - active + 1..] == right;
    assert t == s[..active] + left + right;
  }

  /** How the two parts change when case i is taken out. */
  lemma RemoveParts(s: seq<Case>, active: nat, i: nat)
    requires 1 <= active <= |s| && 1 <= i < |s|
    ensures var t := Without(s, i);
            && multiset(t[1..]) == multiset(s[1..]) - multiset{s[i]} && s[i] in multiset(s[1..])
            && (i < active ==> t[active - 1..] == s[active..] && multiset(t[1..active - 1]) <= multiset(s[1..active]))
            && (i >= active ==> t[1..active] == s[1..active] && multiset(t[active..]) <= multiset(s[active..]))
  {
    var t := Without(s, i);
    assert |t| == |s| - 1;
    hide Without;
    ListTail(s, t, i);
    assert s[1..][i - 1] == s[i];
    if i < active {
      WithoutBefore(s, active, i);
      WithoutLoses(s[1..active], i - 1);
    } else {
      WithoutBehind(s, active, i);
      WithoutLoses(s[active..], i - active);
    }
  }

  lemma SendSums(got: multiset<Case>, unsent: multiset<Case>, sent: multiset<Case>, unsent': multiset<Case>,
                 sent': multiset<Case>, c: Case, all: multiset<Case>)
    requires sent <= got && got + unsent <= all && unsent' + multiset{c} == unsent && sent' == multiset{c} + sent
    ensures sent' <= got + multiset{c} && got + multiset{c} + unsent' <= all
  {
  }

  /** Sending to an unsent case moves it behind the prefix. */
  lemma RoundSend(s: seq<Case>, active: nat, i: nat, delivered: seq<Case>, removed: seq<Case>, all: seq<Case>)
    requires Round(s, active, delivered, removed, all) && 1 <= i < active
    ensures Round(Swapped(s, i, active - 1), active - 1, delivered + [s[i]], removed, all)
  {
    var t := Swapped(s, i, active - 1);
    assert t[0] == s[0] && |t| == |s|;
    hide Swapped;
    SendParts(s, active, i);
    SendWhole(s, active, i);
    SendSums(multiset(delivered), multiset(s[1..active]), multiset(s[active..]), multiset(t[1..active - 1]),
             multiset(t[active - 1..]), s[i], multiset(all));
    assert multiset(delivered + [s[i]]) == multiset(delivered) + multiset{s[i]};
  }

  lemma LeaveSums(list: multiset<Case>, removed: multiset<Case>, c: Case, all: multiset<Case>)
    requires list + removed == all && c in list
    ensures list - multiset{c} + (removed + multiset{c}) == all
  {
  }

  lemma Shrinks(a: multiset<Case>, b: multiset<Case>, b': multiset<Case>, all: multiset<Case>)
    requires b' <= b && a + b <= all
    ensures a + b' <= all
  {
  }

  /** Removing a case, sent or not, keeps the prefix unsent and the rest sent. */
  lemma RoundRemove(s: seq<Case>, active: nat, i: nat, delivered: seq<Case>, removed: seq<Case>, all: seq<Case>)
    requires Round(s, active, delivered, removed, all) && 1 <= i < |s|
    ensures Round(Without(s, i), if i < active then active - 1 else active, delivered, removed + [s[i]], all)
  {
    var t := Without(s, i);
    assert t[0] == s[0] && |t| == |s| - 1;
    hide Without;
    RemoveParts(s, active, i);
    LeaveSums(multiset(s[1..]), multiset(removed), s[i], multiset(all));
    assert multiset(removed + [s[i]]) == multiset(removed) + multiset{s[i]};
    if i < active { Shrinks(multiset(delivered), multiset(s[1..active]), multiset(t[1..active - 1]), multiset(all)); }
  }

  /** When the prefix is used up, every subscription that stayed was served exactly once, a removed one at most once,
      and nobody else at all. */
  lemma RoundDone(s: seq<Case>, delivered: seq<Case>, removed: seq<Case>, all: seq<Case>)
    requires Round(s, 1, delivered, removed, all)
    ensures multiset(s[1..]) == multiset(all) - multiset(removed) && multiset(removed) <= multiset(all)
    ensures multiset(all) - multiset(removed) <= multiset(delivered) <= multiset(all)
    ensures forall c :: c !in removed ==> multiset(delivered)[c] == multiset(all)[c]
  {
    assert multiset(s[1..]) == multiset(s[1..]) + multiset(removed) - multiset(removed);
    forall c | c !in removed
      ensures multiset(delivered)[c] == multiset(all)[c]
    {
      assert multiset(s[1..])[c] == multiset(all)[c] && multiset(s[1..])[c] <= multiset(delivered)[c];
      assert multiset(delivered)[c] <= multiset(all)[c];
    }
  }

  /** A list without the first occurrence of c. */
  method TakeOut(s: seq<Case>, c: Case) returns (t: seq<Case>)
    requires c in s
    ensures multiset(t) == multiset(s) - multiset{c} && forall x :: x in t ==> x in s
  {
    for i := 0 to |s|
      invariant c !in s[..i]
    {
      if s[i] == c {
        WithoutLoses(s, i);
        return Without(s, i);
      }
    }
  }

  lemma JoinLoses(a: seq<Case>, b: seq<Case>, a': seq<Case>, b': seq<Case>, c: Case)
    requires (a' == a && c in b && multiset(b') == multiset(b) - multiset{c})
          || (b' == b && c in a && multiset(a') == multiset(a) - multiset{c})
    ensures multiset(a' + b') == multiset(a + b) - multiset{c}
  {
  }

  lemma FirstIsNot(s: seq<Case>, c: Case)
    requires s != [] && s[0] != c && c in s
    ensures c in s[1..]
  {
    var i :| 0 <= i < |s| && s[i] == c;
    assert s[1..][i - 1] == c;
  }

  lemma ListTail(s: seq<Case>, t: seq<Case>, i: nat)
    requires 1 <= i < |s| && t == Without(s, i)
    ensures multiset(t[1..]) == multiset(s[1..]) - multiset{s[i]}
  {
    WithoutLoses(s[1..], i - 1);
    assert t[1..] == Without(s[1..], i - 1);
  }

  class Feed {
    var buf: array<Case>
    var len: nat
    var inbox: seq<Case>

    /** The case list is the first `len` elements of the buffer, the removal channel first. */
    ghost predicate Valid()
      reads this, buf
    {
      && 1 <= len <= buf.Length && buf[0] == RemoveSub && RemoveSub !in inbox
      && forall i :: 1 <= i < len ==> buf[i].Sub?
    }

    ghost function List(): seq<Case>
      requires len <= buf.Length
      reads this, buf
    {
      buf[..len]
    }

    /** Everybody subscribed, on the case list or still in the inbox. */
    ghost function Subs(): seq<Case>
      requires 1 <= len <= buf.Length
      reads this, buf
    {
      buf[1..len] + inbox
    }

    constructor ()
      ensures Valid() && fresh(buf) && Subs() == []
    {
      buf, len, inbox := new Case[1](_ => RemoveSub), 1, [];
    }

    method Subscribe(ch: Chan)
      requires Valid()
      modifies this`inbox
      ensures Valid() && Subs() == old(Subs()) + [Sub(ch)]
    {
      inbox := inbox + [Sub(ch)];
    }

    /** The index of the first case for c, or -1. */
    method Find(c: Case) returns (index: int)
      requires Valid()
      ensures index == -1 <==> c !in List()
      ensures index != -1 ==> 0 <= index < len && buf[index] == c && c !in buf[..index]
    {
      for i := 0 to len
        invariant c !in buf[..i]
      {
        if buf[i] == c { return i; }
      }
      index := -1;
    }

    /** Close the gap of a removed case by shifting the rest down. */
    method Delete(index: nat)
      requires Valid() && 1 <= index < len
      modifies this`len, buf
      ensures Valid() && List() == Without(old(List()), index)
    {
      ghost var s := buf[..len];
      for i := index to len - 1
        modifies buf
        invariant forall k :: 0 <= k < index || i <= k < len ==> buf[k] == s[k]
        invariant forall k {:trigger buf[k]} :: index <= k < i ==> buf[k] == s[k + 1]
      {
        buf[i] := buf[i + 1];
      }
      len := len - 1;
      assert buf[..len] == Without(s, index);
    }

    /** Swap a case with the last of the prefix. */
    method Deactivate(index: nat, active: nat)
      requires Valid() && 1 <= index < active <= len
      modifies buf
      ensures Valid() && List() == Swapped(old(List()), index, active - 1)
    {
      buf[index], buf[active - 1] := buf[active - 1], buf[index];
      assert buf[..len] == Swapped(old(buf[..len]), index, active - 1);
    }

    /** Unsubscribe while no send is going on. */
    method Remove(ch: Chan)
      requires Valid() && (Sub(ch) in inbox || Sub(ch) in List())
      modifies this, buf
      ensures Valid() && buf == old(buf) && multiset(Subs()) == multiset(old(Subs())) - multiset{Sub(ch)}
    {
      ghost var s, was := List(), inbox;
      if Sub(ch) in inbox {
        inbox := TakeOut(inbox, Sub(ch));
        JoinLoses(buf[1..len], was, buf[1..len], inbox, Sub(ch));
      } else {
        FirstIsNot(s, Sub(ch));
        var index := Find(Sub(ch));
        Delete(index);
        ListTail(s, List(), index);
        assert buf[1..len] == List()[1..];
        JoinLoses(s[1..], inbox, buf[1..len], inbox, Sub(ch));
      }
    }

    /** Make room for more cases, in a larger buffer if need be. */
    method Grow(room: nat)
      requires Valid()
      modifies this`buf
      ensures Valid() && List() == old(List()) && len + room <= buf.Length && (buf == old(buf) || fresh(buf))
    {
      if len + room > buf.Length {
        var bigger := new Case[len + room](_ => RemoveSub);
        for i := 0 to len
          modifies bigger
          invariant forall k :: 0 <= k < i ==> bigger[k] == buf[k]
        {
          bigger[i] := buf[i];
        }
        assert bigger[..len] == buf[..len];
        buf := bigger;
      }
    }

    /** Move the inbox to the end of the case list. */
    method Merge()
      requires Valid()
      modifies this, buf
      ensures Valid() && inbox == [] && List() == old(List()) + old(inbox) && (buf == old(buf) || fresh(buf))
    {
      Grow(|inbox|);
      ghost var s := List();
      for i := 0 to |inbox|
        modifies buf
        invariant forall k :: 0 <= k < len ==> buf[k] == s[k]
        invariant forall k {:trigger buf[k]} :: len <= k < len + i ==> buf[k] == inbox[k - len]
      {
        buf[len + i] := inbox[i];
      }
      ghost var t := s + inbox;
      assert forall k :: 0 <= k < |t| ==> buf[k] == t[k];
      len, inbox := len + |inbox|, [];
      assert List() == t;
    }

    /** Try every unsent case once without blocking. Which channels are ready is up to the outside. */
    method TrySends(active0: nat, nsent0: nat, delivered0: seq<Case>, ghost removed: seq<Case>, ghost all: seq<Case>)
      returns (active: nat, nsent: nat, delivered: seq<Case>)
      requires Valid() && active0 <= len && Round(List(), active0, delivered0, removed, all) && nsent0 == |delivered0|
      modifies buf
      ensures Valid() && active <= len && Round(List(), active, delivered, removed, all) && nsent == |delivered|
      ensures delivered0 <= delivered && active + nsent == active0 + nsent0
    {
      hide Round, Swapped;
      PrefixStarts(List(), active0, delivered0, removed, all);
      active, nsent, delivered := active0, nsent0, delivered0;
      var i := 1;
      while i < active
        invariant Valid() && 1 <= i && active <= len && Round(List(), active, delivered, removed, all)
        invariant nsent == |delivered| && delivered0 <= delivered && active + nsent == active0 + nsent0
        decreases active - i
      {
        var ready := *;
        if ready {
          RoundSend(List(), active, i, delivered, removed, all);
          var got := buf[i];
          Deactivate(i, active);
          active, nsent, delivered := active - 1, nsent + 1, delivered + [got];
        } else {
          i := i + 1;
        }
      }
    }

    /** Block until some case can proceed: a subscriber asks to be removed, or an unsent one gets ready. */
    method Select(active0: nat, nsent0: nat, delivered0: seq<Case>, removed0: seq<Case>, ghost all: seq<Case>)
      returns (active: nat, nsent: nat, delivered: seq<Case>, removed: seq<Case>)
      requires Valid() && 1 < active0 <= len && Round(List(), active0, delivered0, removed0, all)
               && nsent0 == |delivered0|
      modifies this`len, buf
      ensures Valid() && active <= len && Round(List(), active, delivered, removed, all) && nsent == |delivered|
      ensures active + len < active0 + old(len) && nsent0 <= nsent
    {
      hide Round, Swapped, Without;
      active, nsent, delivered, removed := active0, nsent0, delivered0, removed0;
      var chosen: nat :| chosen < active;
      if chosen == 0 {
        var who: nat :| 1 <= who < len;
        var leaver := buf[who];
        var index := Find(leaver);
        RoundRemove(List(), active, index, delivered, removed, all);
        Shorter(List(), index);
        Delete(index);
        removed := removed + [leaver];
        if 0 <= index < active { active := active - 1; }
      } else {
        RoundSend(List(), active, chosen, delivered, removed, all);
        var got := buf[chosen];
        Deactivate(chosen, active);
        active, nsent, delivered := active - 1, nsent + 1, delivered + [got];
      }
    }

    /** Deliver to every subscriber. Whoever becomes ready or asks to be removed, and when, is up to the outside. */
    method Send() returns (nsent: nat, delivered: seq<Case>, removed: seq<Case>)
      requires Valid()
      modifies this, buf
      ensures Valid() && (buf == old(buf) || fresh(buf)) && inbox == [] && nsent == |delivered|
      ensures multiset(Subs()) == multiset(old(Subs())) - multiset(removed)
              && multiset(removed) <= multiset(old(Subs()))
      // at least once for every subscription that stays, at most once for each there was
      ensures multiset(Subs()) <= multiset(delivered) <= multiset(old(Subs()))
      ensures forall c :: c !in removed ==> multiset(delivered)[c] == multiset(old(Subs()))[c]
    {
      hide Round;
      ghost var all := Subs();
      Merge();
      RoundStart(List(), all);
      nsent, delivered, removed := 0, [], [];
      var active: nat := len;
      while true
        invariant Valid() && (buf == old(buf) || fresh(buf)) && inbox == []
        invariant active <= len && nsent == |delivered| && Round(List(), active, delivered, removed, all)
        decreases active + len
      {
        PrefixStarts(List(), active, delivered, removed, all);
        active, nsent, delivered := TrySends(active, nsent, delivered, removed, all);
        PrefixStarts(List(), active, delivered, removed, all);
        if active == 1 { break; }
        active, nsent, delivered, removed := Select(active, nsent, delivered, removed, all);
      }
      RoundDone(List(), delivered, removed, all);
      assert Subs() == List()[1..];
    }
  }

  lemma Shorter(s: seq<Case>, i: nat)
    requires i < |s|
    ensures |Without(s, i)| == |s| - 1
  {
  }

  lemma RoundStart(s: seq<Case>, all: seq<Case>)
    requires s == [RemoveSub] + all
    ensures Round(s, |s|, [], [], all)
  {
    assert s[1..] == all && s[1..|s|] == all && s[|s|..] == [];
  }

  lemma PrefixStarts(s: seq<Case>, active: nat, delivered: seq<Case>, removed: seq<Case>, all: seq<Case>)
    requires Round(s, active, delivered, removed, all)
    ensures 1 <= active <= |s|
  {
  }
}
