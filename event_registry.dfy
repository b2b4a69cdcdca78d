/**
 * The listener registry every editor object inherits (src/EventEmitter.js):
 * a dictionary from event names to ordered lists of listeners.
 *
 * Listeners are closures in the source and cannot be compared here, so a
 * listener is an abstract identity: `Fn(id)` for a function a caller passed
 * in, `OnceWrapper(serial, target)` for the fresh closure that `once` wraps
 * around the caller's function `target`.
 */
module EventRegistry {
  import opened Wrappers

  datatype Listener = Fn(id: nat) | OnceWrapper(serial: nat, target: nat)

  type Events = map<string, seq<Listener>>

  /** The listeners stored for `e`, or none when `e` has no entry. */
  function Registered(ev: Events, e: string): seq<Listener>
  {
    if e in ev then ev[e] else []
  }

  /** `s` with every listener of `drop` filtered out (the `filter` in `off`). */
  function Without(s: seq<Listener>, drop: set<Listener>): (r: seq<Listener>)
    ensures |r| <= |s|
    ensures forall x :: x in r <==> x in s && x !in drop
  {
    if s == [] then []
    else (if s[0] in drop then [] else [s[0]]) + Without(s[1..], drop)
  }

  /** Filtering keeps every surviving listener as often as it occurred. */
  lemma {:induction false} WithoutCount(s: seq<Listener>, drop: set<Listener>, x: Listener)
    ensures multiset(Without(s, drop))[x] == if x in drop then 0 else multiset(s)[x]
  {
    if s != [] {
      var head := if s[0] in drop then [] else [s[0]];
      WithoutCount(s[1..], drop, x);
      assert s == [s[0]] + s[1..];
      assert multiset(s) == multiset([s[0]]) + multiset(s[1..]);
      assert multiset(Without(s, drop)) == multiset(head) + multiset(Without(s[1..], drop));
    }
  }

  /** Filtering keeps the relative order of what survives: it distributes over concatenation. */
  lemma {:induction false} WithoutAppend(a: seq<Listener>, b: seq<Listener>, drop: set<Listener>)
    ensures Without(a + b, drop) == Without(a, drop) + Without(b, drop)
  {
    if a != [] {
      var head := if a[0] in drop then [] else [a[0]];
      assert (a + b)[0] == a[0];
      assert (a + b)[1..] == a[1..] + b;
      assert Without(a + b, drop) == head + Without(a[1..] + b, drop);
      WithoutAppend(a[1..], b, drop);
      assert Without(a, drop) == head + Without(a[1..], drop);
    } else {
      assert a + b == b;
    }
  }

  /** A listener that is not dropped stays, one that is dropped goes. */
  lemma WithoutSingle(x: Listener, drop: set<Listener>)
    ensures Without([x], drop) == if x in drop then [] else [x]
  {
    assert [x][1..] == [];
  }

  /** Filtering twice is filtering once by both sets. */
  lemma {:induction false} WithoutWithout(s: seq<Listener>, a: set<Listener>, b: set<Listener>)
    ensures Without(Without(s, a), b) == Without(s, a + b)
  {
    if s != [] {
      var rest := Without(s[1..], a);
      WithoutWithout(s[1..], a, b);
      if s[0] in a {
        assert Without(s, a) == [] + rest == rest;
      } else {
        var head := if s[0] in b then [] else [s[0]];
        assert Without(s, a) == [s[0]] + rest;
        assert ([s[0]] + rest)[0] == s[0];
        assert ([s[0]] + rest)[1..] == rest;
        assert Without(Without(s, a), b) == head + Without(rest, b);
        assert Without(s, a + b) == head + Without(s[1..], a + b);
      }
    }
  }

  /** Filtering by listeners that do not occur changes nothing. */
  lemma {:induction false} WithoutAbsent(s: seq<Listener>, drop: set<Listener>)
    requires forall x :: x in s ==> x !in drop
    ensures Without(s, drop) == s
  {
    if s != [] {
      assert s[0] in s;
      forall x | x in s[1..] ensures x !in drop {
        assert x in s;
      }
      WithoutAbsent(s[1..], drop);
      assert [s[0]] + s[1..] == s;
    }
  }

  /**
   * The registry after filtering `drop` out of `e`'s list, with `e`'s key
   * deleted when the list becomes empty; nothing happens when `e` has no entry.
   */
  function Detach(ev: Events, e: string, drop: set<Listener>): Events
  {
    if e !in ev then ev
    else
      var kept := Without(ev[e], drop);
      if kept == [] then ev - {e} else ev[e := kept]
  }

  /**
   * Detaching leaves `e` with its old listeners minus `drop`, in order, keeps
   * `e`'s key exactly when some listener is left, and touches no other event.
   */
  lemma DetachFacts(ev: Events, e: string, drop: set<Listener>)
    ensures var r := Detach(ev, e, drop);
      && Registered(r, e) == Without(Registered(ev, e), drop)
      && (e in r <==> Without(Registered(ev, e), drop) != [])
      && (forall k :: k != e ==> (k in r <==> k in ev))
      && (forall k :: k != e && k in r ==> r[k] == ev[k])
  {
  }

  /** Detaching twice from one event is detaching once by both sets. */
  lemma DetachTwice(ev: Events, e: string, a: set<Listener>, b: set<Listener>)
    ensures Detach(Detach(ev, e, a), e, b) == Detach(ev, e, a + b)
  {
    var s := Registered(ev, e);
    WithoutWithout(s, a, b);
    DetachFacts(ev, e, a);
    DetachFacts(Detach(ev, e, a), e, b);
    DetachFacts(ev, e, a + b);
    assert Without(Registered(Detach(ev, e, a), e), b) == Without(s, a + b);
  }

  /** Detaching listeners that are not there leaves a registry without empty lists as it is. */
  lemma DetachAbsent(ev: Events, e: string, drop: set<Listener>)
    requires forall k :: k in ev ==> ev[k] != []
    requires forall x :: x in Registered(ev, e) ==> x !in drop
    ensures Detach(ev, e, drop) == ev
  {
    WithoutAbsent(Registered(ev, e), drop);
  }

  /** No stored list is empty. */
  predicate NoEmptyLists(ev: Events)
  {
    forall k :: k in ev ==> ev[k] != []
  }

  /**
   * What the registry promises about its own state: no stored list is empty,
   * every once-wrapper was allocated before `nextSerial`, and a wrapper
   * occurs at most once in a list (each `once` call creates a new closure).
   */
  ghost predicate WellFormed(ev: Events, nextSerial: nat)
  {
    && NoEmptyLists(ev)
    && (forall k, i :: k in ev && 0 <= i < |ev[k]| && ev[k][i].OnceWrapper? ==> ev[k][i].serial < nextSerial)
    && (forall k, w: Listener :: k in ev && w.OnceWrapper? ==> multiset(ev[k])[w] <= 1)
  }

  /** Appending a function, or a wrapper seen nowhere yet, keeps the registry well formed. */
  lemma AppendWellFormed(ev: Events, n: nat, e: string, l: Listener)
    requires WellFormed(ev, n)
    requires l.OnceWrapper? ==> l.serial < n && forall k :: k in ev ==> l !in ev[k]
    ensures WellFormed(ev[e := Registered(ev, e) + [l]], n)
  {
    var r: Events := ev[e := Registered(ev, e) + [l]];
    forall k, i | k in r && 0 <= i < |r[k]| && r[k][i].OnceWrapper?
      ensures r[k][i].serial < n
    {
      if k == e && i < |Registered(ev, e)| {
        assert r[k][i] == ev[e][i];
      }
    }
    forall k, w: Listener | k in r && w.OnceWrapper?
      ensures multiset(r[k])[w] <= 1
    {
      if k == e {
        assert multiset(r[k]) == multiset(Registered(ev, e)) + multiset{l};
        if w == l {
          assert l !in Registered(ev, e);
        }
      }
    }
  }

  lemma DetachWellFormed(ev: Events, n: nat, e: string, drop: set<Listener>)
    requires WellFormed(ev, n)
    ensures WellFormed(Detach(ev, e, drop), n)
  {
    var r: Events := Detach(ev, e, drop);
    DetachFacts(ev, e, drop);
    forall k: string, i: int | k in r && 0 <= i < |r[k]| && r[k][i].OnceWrapper?
      ensures r[k][i].serial < n
    {
      assert r[k][i] in r[k];
      if k == e {
        assert r[k][i] in ev[k];
      }
      var j :| 0 <= j < |ev[k]| && ev[k][j] == r[k][i];
    }
    forall k: string, w: Listener | k in r && w.OnceWrapper?
      ensures multiset(r[k])[w] <= 1
    {
      if k == e {
        WithoutCount(ev[k], drop, w);
      }
    }
  }

  /**
   * The once-wrappers an `emit` retires while running the first `k` of the
   * listeners it invoked: those whose call did not throw, since the
   * wrapper's own `off` runs only after the wrapped function returns.
   */
  function Retired(invoked: seq<Listener>, failing: set<nat>, k: nat): set<Listener>
    requires k <= |invoked|
  {
    if k == 0 then {}
    else
      var w := invoked[k - 1];
      Retired(invoked, failing, k - 1) + (if w.OnceWrapper? && k - 1 !in failing then {w} else {})
  }

  /** A listener is retired exactly when it is a once-wrapper invoked at a position that did not throw. */
  lemma {:induction false} RetiredMembers(invoked: seq<Listener>, failing: set<nat>, k: nat, w: Listener)
    requires k <= |invoked|
    ensures w in Retired(invoked, failing, k) <==> exists j :: 0 <= j < k && invoked[j] == w && w.OnceWrapper? && j !in failing
  {
    if k > 0 {
      RetiredMembers(invoked, failing, k - 1, w);
    }
  }

  /** The positions among the first `k` invocations whose listener threw, in order: one log line each. */
  function Failures(failing: set<nat>, k: nat): seq<nat>
  {
    if k == 0 then []
    else Failures(failing, k - 1) + (if k - 1 in failing then [k - 1] else [])
  }

  /** Exactly the calls that threw are logged, each once and in the order they ran. */
  lemma {:induction false} FailuresLogged(failing: set<nat>, k: nat)
    ensures forall j: nat :: j in Failures(failing, k) <==> j < k && j in failing
    ensures forall a, b :: 0 <= a < b < |Failures(failing, k)| ==> Failures(failing, k)[a] < Failures(failing, k)[b]
  {
    if k > 0 {
      FailuresLogged(failing, k - 1);
      var earlier := Failures(failing, k - 1);
      assert forall a :: 0 <= a < |earlier| ==> earlier[a] in earlier;
    }
  }

  /** One more invocation retires at most the listener it invoked. */
  lemma RetireStep(ev: Events, e: string, invoked: seq<Listener>, failing: set<nat>, i: nat, before: Events, after: Events)
    requires i < |invoked|
    requires before == Detach(ev, e, Retired(invoked, failing, i))
    requires after == if invoked[i].OnceWrapper? && i !in failing then Detach(before, e, {invoked[i]}) else before
    ensures after == Detach(ev, e, Retired(invoked, failing, i + 1))
  {
    var l := invoked[i];
    var done := Retired(invoked, failing, i);
    if l.OnceWrapper? && i !in failing {
      assert Retired(invoked, failing, i + 1) == done + {l};
      DetachTwice(ev, e, done, {l});
    } else {
      assert Retired(invoked, failing, i + 1) == done;
    }
  }

  lemma {:induction false} TwiceCounted(s: seq<Listener>, i: nat, j: nat)
    requires i < j < |s| && s[i] == s[j]
    ensures multiset(s)[s[i]] >= 2
  {
    assert s == s[..j] + s[j..];
    assert s[i] in s[..j];
    assert s[j..][0] == s[j];
    assert s[j] in s[j..];
  }

  /**
   * A once-wrapper invoked at position `i` is retired exactly when the
   * function it wraps returned normally.
   */
  lemma OnceRetiredIffReturned(s: seq<Listener>, failing: set<nat>, i: nat)
    requires i < |s| && s[i].OnceWrapper?
    requires multiset(s)[s[i]] <= 1
    ensures s[i] in Retired(s, failing, |s|) <==> i !in failing
  {
    RetiredMembers(s, failing, |s|, s[i]);
    if s[i] in Retired(s, failing, |s|) {
      var j :| 0 <= j < |s| && s[j] == s[i] && s[i].OnceWrapper? && j !in failing;
      if j < i {
        TwiceCounted(s, j, i);
      } else if i < j {
        TwiceCounted(s, i, j);
      }
    }
  }

  /**
   * After `emit(e)` the registry holds the once-wrapper invoked at position
   * `i` exactly when its function threw; every other listener stays.
   */
  lemma EmitRetiresOnce(ev: Events, n: nat, e: string, failing: set<nat>, i: nat)
    requires WellFormed(ev, n) && e in ev
    requires i < |ev[e]|
    ensures var after := Detach(ev, e, Retired(ev[e], failing, |ev[e]|));
      && (ev[e][i].OnceWrapper? ==> (ev[e][i] in Registered(after, e) <==> i in failing))
      && (ev[e][i].Fn? ==> ev[e][i] in Registered(after, e))
  {
    DetachFacts(ev, e, Retired(ev[e], failing, |ev[e]|));
    if ev[e][i].OnceWrapper? {
      OnceRetiredIffReturned(ev[e], failing, i);
    } else {
      RetiredMembers(ev[e], failing, |ev[e]|, ev[e][i]);
    }
    assert ev[e][i] in ev[e];
  }

  /** `off(e, f)` for a caller's function `f` never removes a once-wrapper around `f`. */
  lemma OffSparesWrapper(ev: Events, e: string, f: nat, w: Listener)
    requires w.OnceWrapper? && w in Registered(ev, e)
    ensures w in Registered(Detach(ev, e, {Fn(f)}), e)
  {
    DetachFacts(ev, e, {Fn(f)});
  }

  /** The listener registry; `events` is the source's `this.events`. */
  class Emitter {
    var events: Events
    var nextSerial: nat

    ghost predicate Valid()
      reads this
    {
      WellFormed(events, nextSerial)
    }

    constructor ()
      ensures Valid() && events == map[]
    {
      events := map[];
      nextSerial := 0;
    }

    /**
     * `on(event, listener)`: append `l` to `e`'s list, creating the list
     * when absent. A once-wrapper handed over by `Once` is a new closure.
     */
    method On(e: string, l: Listener)
      requires Valid()
      requires l.OnceWrapper? ==> l.serial < nextSerial && forall k :: k in events ==> l !in events[k]
      modifies this
      ensures Valid() && nextSerial == old(nextSerial)
      ensures events == old(events)[e := Registered(old(events), e) + [l]]
    {
      AppendWellFormed(events, nextSerial, e, l);
      events := events[e := Registered(events, e) + [l]];
    }

    /** `once(event, listener)`: register a fresh wrapper around `f`, not `f` itself. */
    method Once(e: string, f: nat) returns (wrapper: Listener)
      requires Valid()
      modifies this
      ensures Valid() && nextSerial == old(nextSerial) + 1
      ensures wrapper == OnceWrapper(old(nextSerial), f)
      ensures forall k :: k in old(events) ==> wrapper !in old(events)[k]
      ensures events == old(events)[e := Registered(old(events), e) + [wrapper]]
    {
      wrapper := OnceWrapper(nextSerial, f);
      forall k | k in events ensures wrapper !in events[k] {
        assert forall i :: 0 <= i < |events[k]| ==> events[k][i] != wrapper;
      }
      nextSerial := nextSerial + 1;
      On(e, wrapper);
    }

    /**
     * `off(event, listener?)`: nothing when `e` has no entry; without a
     * listener, delete `e`'s entry; otherwise filter out every occurrence
     * of `target`, deleting the entry once the list is empty.
     */
    method Off(e: string, target: Option<Listener>)
      requires Valid()
      modifies this
      ensures Valid() && nextSerial == old(nextSerial)
      ensures e !in old(events) ==> events == old(events)
      ensures e in old(events) && target.None? ==> events == old(events) - {e}
      ensures target.Some? ==> events == Detach(old(events), e, {target.value})
    {
      if e !in events {
        return;
      }
      if target.None? {
        events := events - {e};
        return;
      }
      var kept := Without(events[e], {target.value});
      events := events[e := kept];
      if |events[e]| == 0 {
        events := events - {e};
      }
      DetachWellFormed(old(events), nextSerial, e, {target.value});
    }

    /**
     * `emit(event)`: invoke, in order, the listeners `e` had when the call
     * started (`off` swaps in a new array, so the walk is not disturbed).
     * `i in failing` says whether the `i`-th call throws; each throw is caught
     * and logged, and the walk goes on. A once-wrapper whose function
     * returned removes itself. Returns whether `e` had an entry.
     */
    method Emit(e: string, failing: set<nat>) returns (had: bool, invoked: seq<Listener>, logged: seq<nat>)
      requires Valid()
      modifies this
      ensures Valid() && nextSerial == old(nextSerial)
      ensures had <==> e in old(events)
      ensures invoked == Registered(old(events), e)
      ensures logged == Failures(failing, |invoked|)
      ensures events == Detach(old(events), e, Retired(invoked, failing, |invoked|))
    {
      if e !in events {
        DetachAbsent(events, e, {});
        return false, [], [];
      }
      invoked := events[e];
      logged := [];
      ghost var start := events;
      DetachAbsent(events, e, {});
      var i := 0;
      while i < |invoked|
        invariant 0 <= i <= |invoked|
        invariant nextSerial == old(nextSerial)
        invariant events == Detach(start, e, Retired(invoked, failing, i))
        invariant logged == Failures(failing, i)
      {
        var l, threw := invoked[i], i in failing;
        ghost var before := events;
        DetachWellFormed(start, nextSerial, e, Retired(invoked, failing, i));
        assert Failures(failing, i + 1) == logged + (if threw then [i] else []);
        if threw {
          logged := logged + [i];
        }
        Invoke(e, l, threw);
        RetireStep(start, e, invoked, failing, i, before, events);
        i := i + 1;
      }
      DetachWellFormed(start, nextSerial, e, Retired(invoked, failing, i));
      had := true;
    }

    /**
     * One call of the `forEach` in `emit`: a once-wrapper whose function
     * returned normally then runs `off(e, wrapper)`; a call that threw has
     * its error caught, and changes nothing here.
     */
    method Invoke(e: string, l: Listener, threw: bool)
      requires Valid()
      modifies this
      ensures Valid() && nextSerial == old(nextSerial)
      ensures events == if l.OnceWrapper? && !threw then Detach(old(events), e, {l}) else old(events)
    {
      if !threw && l.OnceWrapper? {
        Off(e, Some(l));
      }
    }

    /** `removeAllListeners(event?)`: a missing or empty (falsy) name clears every event. */
    method RemoveAllListeners(e: Option<string>)
      requires Valid()
      modifies this
      ensures Valid() && nextSerial == old(nextSerial)
      ensures e.Some? && e.value != "" ==> events == old(events) - {e.value}
      ensures e.None? || e.value == "" ==> events == map[]
    {
      if e.Some? && e.value != "" {
        events := events - {e.value};
      } else {
        events := map[];
      }
    }

    /** `listenerCount(event)`: the length of `e`'s list, 0 when it has none. */
    function ListenerCount(e: string): (n: nat)
      reads this
      requires Valid()
      ensures n > 0 <==> e in events
      ensures e in events ==> n == |events[e]|
    {
      if e in events then |events[e]| else 0
    }

    /** `eventNames()`: exactly the events that have a listener. */
    function EventNames(): (names: set<string>)
      reads this
      requires Valid()
      ensures forall e :: e in names <==> ListenerCount(e) > 0
    {
      events.Keys
    }
  }
}
