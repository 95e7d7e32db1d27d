/** The object pool: `acquire` scans the idle objects, expires the stale and the invalid ones, and
    hands out the first good one or a newly created object. */
module ObjectPool {

  function Elements<T>(s: seq<T>): set<T> {
    set x | x in s
  }

  ghost predicate NoDuplicates<T>(s: seq<T>) {
    forall i, j :: 0 <= i < j < |s| ==> s[i] != s[j]
  }

  lemma NoDuplicatesAppend<T>(s: seq<T>, x: T)
    requires NoDuplicates(s) && x !in s
    ensures NoDuplicates(s + [x]) && Elements(s + [x]) == Elements(s) + {x}
  {}

  /** An idle object that may be handed out again: within the expiry time and accepted by `validate`. */
  ghost predicate Usable<T>(idle: map<T, int>, x: T, now: int, expirationTime: int, validate: T -> bool) {
    x in idle && now - idle[x] <= expirationTime && validate(x)
  }

  datatype Option<T> = None | Some(value: T)

  class Pool<T(==)> {
    const expirationTime: int := 30000
    var locked: map<T, int>
    var unlocked: map<T, int>
    /** Every object the pool has created, and those passed to `expire`, in order. */
    ghost var created: set<T>
    ghost var expired: seq<T>

    /** Every created object is in exactly one of in use, idle or expired, and none was expired twice. */
    ghost predicate Valid()
      reads this
    {
      && locked.Keys !! unlocked.Keys
      && (locked.Keys + unlocked.Keys) !! Elements(expired)
      && created == locked.Keys + unlocked.Keys + Elements(expired)
      && NoDuplicates(expired)
    }

    constructor ()
      ensures Valid() && locked == map[] && unlocked == map[] && created == {} && expired == []
      ensures expirationTime == 30_000
    {
      locked, unlocked := map[], map[];
      created, expired := {}, [];
    }

    /** `newborn` is the object `create()` would return. The result was not in use before. A usable idle
        object is always preferred, a new one is made only if there is none, and exactly the objects
        the scan passed over are expired, once each; the rest of the idle objects keep their time. */
    method Acquire(now: int, validate: T -> bool, newborn: T) returns (t: T)
      requires Valid() && newborn !in created
      modifies this
      ensures Valid()
      ensures t !in old(locked) && locked == old(locked)[t := now]
      ensures (exists x :: Usable(old(unlocked), x, now, expirationTime, validate)) ==>
                Usable(old(unlocked), t, now, expirationTime, validate) && created == old(created)
      ensures (forall x :: x in old(unlocked) ==> !Usable(old(unlocked), x, now, expirationTime, validate)) ==>
                t == newborn && unlocked == map[] && created == old(created) + {newborn}
      ensures |old(expired)| <= |expired| && old(expired) == expired[..|old(expired)|]
      ensures var skipped := Elements(expired[|old(expired)|..]);
              && skipped + {t} + unlocked.Keys == old(unlocked).Keys + {t}
              && (forall x :: x in skipped ==> !Usable(old(unlocked), x, now, expirationTime, validate))
              && (forall x :: x in unlocked ==> x in old(unlocked) && unlocked[x] == old(unlocked)[x])
    {
      var r := Scan(now, validate);
      if r.Some? {
        t := r.value;
      } else {
        t := newborn;
        created := created + {newborn};
        locked := locked[t := now];
      }
    }

    /** What a scan has done when `e` is still to be visited. */
    ghost predicate Passed(idle: map<T, int>, e: set<T>, before: seq<T>, now: int, validate: T -> bool)
      reads this
    {
      && unlocked.Keys == e && e <= idle.Keys
      && (forall x :: x in e ==> unlocked[x] == idle[x])
      && |before| <= |expired| && before == expired[..|before|]
      && Elements(expired[|before|..]) == idle.Keys - e
      && (forall x :: x in idle.Keys - e ==> !Usable(idle, x, now, expirationTime, validate))
    }

    /** The loop of `acquire` over the idle objects, in the table's own order. */
    method Scan(now: int, validate: T -> bool) returns (r: Option<T>)
      requires Valid()
      modifies this`locked, this`unlocked, this`expired
      ensures Valid()
      ensures r.None? ==> locked == old(locked) && Passed(old(unlocked), {}, old(expired), now, validate)
      ensures r.Some? ==>
                && Usable(old(unlocked), r.value, now, expirationTime, validate)
                && locked == old(locked)[r.value := now] && r.value !in unlocked
                && |old(expired)| <= |expired| && old(expired) == expired[..|old(expired)|]
                && (forall x :: x in unlocked ==> x in old(unlocked) && unlocked[x] == old(unlocked)[x])
                && Elements(expired[|old(expired)|..]) == old(unlocked).Keys - unlocked.Keys - {r.value}
                && forall x :: x in Elements(expired[|old(expired)|..]) ==>
                     !Usable(old(unlocked), x, now, expirationTime, validate)
    {
      var e := unlocked.Keys;
      ghost var idle, before := unlocked, expired;
      while exists x :: x in e
        invariant Valid() && locked == old(locked) && Passed(idle, e, before, now, validate)
        decreases e
      {
        var t :| t in e;
        if now - unlocked[t] > expirationTime {
          Discard(t, idle, e, before, now, validate);
        } else if validate(t) {
          unlocked := unlocked - {t};
          locked := locked[t := now];
          return Some(t);
        } else {
          Discard(t, idle, e, before, now, validate);
        }
        e := e - {t};
      }
      assert e == {};
      return None;
    }

    /** Take an unusable object out of the idle table and expire it. */
    method Discard(t: T, ghost idle: map<T, int>, ghost e: set<T>, ghost before: seq<T>, now: int, validate: T -> bool)
      requires Valid() && Passed(idle, e, before, now, validate)
      requires t in e && !Usable(idle, t, now, expirationTime, validate)
      modifies this`unlocked, this`expired
      ensures Valid() && Passed(idle, e - {t}, before, now, validate)
    {
      ghost var gone := expired;
      unlocked := unlocked - {t};
      NoDuplicatesAppend(gone, t);
      expired := gone + [t];
      assert expired[|before|..] == gone[|before|..] + [t];
      assert Elements(expired[|before|..]) == Elements(gone[|before|..]) + {t};
      assert Elements(expired) == Elements(gone) + {t};
    }

    /** `release` checks nothing: it keeps the pool consistent exactly when the object is in use or idle,
        and not when it is one the pool has expired or never made. */
    method Release(t: T, now: int)
      requires Valid()
      modifies this`locked, this`unlocked
      ensures locked == old(locked) - {t} && unlocked == old(unlocked)[t := now]
      ensures Valid() <==> t in old(locked) || t in old(unlocked)
    {
      locked := locked - {t};
      unlocked := unlocked[t := now];
      assert t in unlocked.Keys;
    }
  }
}
