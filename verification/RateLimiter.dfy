/** The limiter as the source keeps it: a map changed in place, swept and evicted by loops. */
module RateLimiter {
  import opened RateLimit

  class RateLimiter {
    const options: Options
    var order: seq<string>
    var windows: map<string, Window>

    ghost function View(): Windows
      reads this
    {
      Windows(order, windows)
    }

    constructor (options: Options)
      ensures this.options == options && View() == EMPTY && Bounded(View(), options)
    {
      this.options := options;
      order, windows := [], map[];
    }

    method Allow(key: string, now: int) returns (allowed: bool)
      requires WellFormed(View())
      modifies this
      ensures (View(), allowed) == RateLimit.Allow(old(View()), options, key, now)
      ensures WellFormed(View())
    {
      if key !in windows || windows[key].resetAt <= now {
        RoomFacts(View(), options, key, now);
        SetFacts(Room(View(), options, now), key, Window(1, now + options.windowMs));
        if |order| >= options.maxTrackedKeys {
          MakeRoom(now);
        }
        if key !in windows {
          order := order + [key];
        }
        windows := windows[key := Window(1, now + options.windowMs)];
        return true;
      }
      if windows[key].count >= options.limit {
        return false;
      }
      windows := windows[key := windows[key].(count := windows[key].count + 1)];
      return true;
    }

    /** Deletes expired windows in insertion order, then the oldest keys until one more fits. */
    method MakeRoom(now: int)
      requires WellFormed(View())
      modifies this
      ensures View() == RateLimit.MakeRoom(old(View()), now, options.maxTrackedKeys)
    {
      hide LiveKeys, Distinct, Restricted;
      ghost var before := windows;
      Sweep(now);
      ghost var live := order;
      ghost var gone := 0;
      while |order| >= options.maxTrackedKeys
        invariant gone <= |live| && order == live[gone..] && gone <= Excess(|live|, options.maxTrackedKeys)
        invariant Distinct(order) && Restricted(windows, before, order)
        decreases |order|
      {
        if order == [] {
          break;
        }
        DropOldest(windows, before, order);
        windows := windows - {order[0]};
        order := order[1..];
        gone := gone + 1;
      }
      OnlyRestricted(windows, before, order);
    }

    /** `windows` is what `before` has for the keys of `order`. */
    static ghost predicate Restricted(windows: map<string, Window>, before: map<string, Window>, order: seq<string>) {
      && (forall k :: k in windows <==> k in before && k in order)
      && (forall k :: k in windows ==> windows[k] == before[k])
      && (forall i :: 0 <= i < |order| ==> order[i] in before)
    }

    static lemma OnlyRestricted(windows: map<string, Window>, before: map<string, Window>, order: seq<string>)
      requires Restricted(windows, before, order)
      ensures Windows(order, windows) == Only(order, before)
    {
    }

    static lemma DropOldest(windows: map<string, Window>, before: map<string, Window>, order: seq<string>)
      requires order != [] && Distinct(order) && Restricted(windows, before, order)
      ensures Restricted(windows - {order[0]}, before, order[1..]) && Distinct(order[1..])
    {
      assert order == [order[0]] + order[1..];
      assert order[0] !in order[1..];
    }

    /** The first loop: what has expired is deleted, what has not keeps its place. */
    method Sweep(now: int)
      requires WellFormed(View())
      modifies this
      ensures order == LiveKeys(old(order), old(windows), now)
      ensures Distinct(order) && Restricted(windows, old(windows), order)
    {
      hide LiveKeys;
      ghost var all := order;
      var kept, rest := [], order;
      assert kept + rest == order;
      while rest != []
        invariant order == kept + rest && Distinct(order)
        invariant kept + LiveKeys(rest, old(windows), now) == LiveKeys(all, old(windows), now)
        invariant Restricted(windows, old(windows), order)
        decreases |rest|
      {
        var key := rest[0];
        assert order[|kept|] == key;
        Skip(windows, old(windows), kept, rest, now);
        if windows[key].resetAt <= now {
          windows := windows - {key};
          order := kept + rest[1..];
        } else {
          kept := kept + [key];
        }
        rest := rest[1..];
      }
      Swept(kept, rest, old(windows), now);
    }

    /** Removing an element from the middle of a sequence without repetition removes just that element. */
    static lemma RemoveMiddle(kept: seq<string>, rest: seq<string>)
      requires rest != [] && Distinct(kept + rest)
      ensures Distinct(kept + rest[1..])
      ensures forall k :: k in kept + rest[1..] <==> k in kept + rest && k != rest[0]
    {
      var order, n := kept + rest, |kept|;
      assert order[n] == rest[0];
      forall k | k in rest[1..] ensures k != rest[0] {
        var i :| 0 <= i < |rest[1..]| && rest[1..][i] == k;
        assert order[n + 1 + i] == k;
      }
      forall k | k in kept ensures k != rest[0] {
        var i :| 0 <= i < |kept| && kept[i] == k;
        assert order[i] == k;
      }
      assert rest == [rest[0]] + rest[1..];
      forall i, j | 0 <= i < j < |order| - 1 ensures (kept + rest[1..])[i] != (kept + rest[1..])[j] {
        assert (kept + rest[1..])[i] == order[if i < n then i else i + 1];
        assert (kept + rest[1..])[j] == order[if j < n then j else j + 1];
      }
    }

    /** One turn of the sweep: the key is deleted from the middle, or stays and is live. */
    static lemma Skip(windows: map<string, Window>, before: map<string, Window>, kept: seq<string>, rest: seq<string>,
                      now: int)
      requires rest != [] && Distinct(kept + rest) && Restricted(windows, before, kept + rest)
      ensures rest[0] in windows && windows[rest[0]] == before[rest[0]]
      ensures kept + rest == kept + [rest[0]] + rest[1..]
      ensures Distinct(kept + rest[1..]) && Restricted(windows - {rest[0]}, before, kept + rest[1..])
      ensures before[rest[0]].resetAt <= now ==> LiveKeys(rest, before, now) == LiveKeys(rest[1..], before, now)
      ensures before[rest[0]].resetAt > now ==>
        kept + LiveKeys(rest, before, now) == kept + [rest[0]] + LiveKeys(rest[1..], before, now)
    {
      RemoveMiddle(kept, rest);
      hide Distinct, LiveKeys;
      assert (kept + rest)[|kept|] == rest[0];
      FirstLive(kept, rest, before, now);
      assert kept + rest == kept + [rest[0]] + rest[1..];
      assert forall i :: 0 <= i < |kept + rest[1..]| ==> (kept + rest[1..])[i] in kept + rest[1..];
    }

    static lemma FirstLive(kept: seq<string>, rest: seq<string>, before: map<string, Window>, now: int)
      requires rest != [] && rest[0] in before
      ensures before[rest[0]].resetAt <= now ==> LiveKeys(rest, before, now) == LiveKeys(rest[1..], before, now)
      ensures before[rest[0]].resetAt > now ==>
        kept + LiveKeys(rest, before, now) == kept + [rest[0]] + LiveKeys(rest[1..], before, now)
    {
    }

    static lemma Swept(kept: seq<string>, rest: seq<string>, before: map<string, Window>, now: int)
      requires rest == []
      ensures kept + LiveKeys(rest, before, now) == kept == kept + rest
    {
    }
  }
}
