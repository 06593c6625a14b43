/** The negative cache of AssetImageRequestCoordinator: URLs recently not found, with the instant each
    entry expires, at most so many of them. */
module NegativeCache {
  import opened MemoryKeys

  type Expiries = map<Url, int>

  // ---- Order: by expiry, then by key ----

  /** QString's operator<. */
  predicate KeyLess(a: Url, b: Url) {
    b != [] && (a == [] || a[0] < b[0] || (a[0] == b[0] && KeyLess(a[1..], b[1..])))
  }

  predicate Older(m: Expiries, a: Url, b: Url)
    requires a in m && b in m
  {
    m[a] < m[b] || (m[a] == m[b] && KeyLess(a, b))
  }

  lemma {:induction false} KeyLessIsTotal(a: Url, b: Url)
    ensures a == b || KeyLess(a, b) || KeyLess(b, a)
    ensures !(KeyLess(a, b) && KeyLess(b, a)) && !KeyLess(a, a)
  {
    if a != [] && b != [] {
      KeyLessIsTotal(a[1..], b[1..]);
      assert a == [a[0]] + a[1..] && b == [b[0]] + b[1..];
    }
    if a != [] {
      KeyLessIsTotal(a[1..], a[1..]);
    }
  }

  lemma {:induction false} KeyLessIsTransitive(a: Url, b: Url, c: Url)
    requires KeyLess(a, b) && KeyLess(b, c)
    ensures KeyLess(a, c)
  {
    if a == [] || !(a[0] == b[0] == c[0]) {
    } else {
      KeyLessIsTransitive(a[1..], b[1..], c[1..]);
    }
  }

  predicate IsOldest(m: Expiries, key: Url) {
    key in m && forall other | other in m && other != key :: Older(m, key, other)
  }

  lemma OldestIsUnique(m: Expiries, a: Url, b: Url)
    requires IsOldest(m, a) && IsOldest(m, b)
    ensures a == b
  {
    KeyLessIsTotal(a, b);
  }

  /** The scan for the oldest entry, in whatever order the table yields its entries. */
  method FindOldest(m: Expiries) returns (oldest: Url)
    requires m != map[]
    ensures IsOldest(m, oldest)
  {
    oldest :| oldest in m;
    var rest := m.Keys;
    while rest != {}
      invariant rest <= m.Keys && oldest in m
      invariant forall key | key in m && key !in rest && key != oldest :: Older(m, oldest, key)
      decreases rest
    {
      var key :| key in rest;
      KeyLessIsTotal(key, oldest);
      if m[key] < m[oldest] || (m[key] == m[oldest] && KeyLess(key, oldest)) {
        forall other | other in m && other !in rest && other != oldest ensures Older(m, key, other) {
          if m[key] == m[oldest] == m[other] {
            KeyLessIsTransitive(key, oldest, other);
          }
        }
        oldest := key;
      }
      rest := rest - {key};
    }
  }

  lemma {:induction false} OldestExists(m: Expiries)
    requires m != map[]
    ensures exists key :: IsOldest(m, key)
    decreases |m|
  {
    var key :| key in m;
    if m - {key} == map[] {
      assert m.Keys == (m - {key}).Keys + {key};
      assert IsOldest(m, key);
    } else {
      OldestExists(m - {key});
      var oldest :| IsOldest(m - {key}, oldest);
      KeyLessIsTotal(key, oldest);
      if Older(m, key, oldest) {
        forall other | other in m && other != key ensures Older(m, key, other) {
          if other != oldest {
            assert Older(m - {key}, oldest, other);
            if m[key] == m[oldest] == m[other] {
              KeyLessIsTransitive(key, oldest, other);
            }
          }
        }
        assert IsOldest(m, key);
      } else {
        forall other | other in m && other != oldest ensures Older(m, oldest, other) {
          assert other != key ==> Older(m - {key}, oldest, other);
        }
        assert IsOldest(m, oldest);
      }
    }
  }

  // ---- Pruning ----

  function Unexpired(m: Expiries, now: int): Expiries {
    map key | key in m && m[key] > now :: m[key]
  }

  ghost function Oldest(m: Expiries): (key: Url)
    requires m != map[]
    ensures IsOldest(m, key)
  {
    OldestExists(m);
    var key :| IsOldest(m, key);
    key
  }

  /** A negative limit means no limit. */
  ghost function Capped(m: Expiries, max: int): Expiries
    decreases |m|
  {
    if max < 0 || |m| <= max then m else Capped(m - {Oldest(m)}, max)
  }

  /** pruneNegativeCache at the instant `now`. */
  ghost function Pruned(m: Expiries, max: int, now: int): Expiries {
    Capped(Unexpired(m, now), max)
  }

  lemma {:induction false} CappedIsNewest(m: Expiries, max: int)
    ensures forall key | key in Capped(m, max) :: key in m && Capped(m, max)[key] == m[key]
    ensures |Capped(m, max)| == if max < 0 || |m| <= max then |m| else max
    ensures forall kept, gone | kept in Capped(m, max) && gone in m && gone !in Capped(m, max) :: Older(m, gone, kept)
    decreases |m|
  {
    if max < 0 || |m| <= max {
    } else {
      var oldest := Oldest(m);
      var rest := m - {oldest};
      assert |rest| == |m| - 1 by {
        assert m.Keys == rest.Keys + {oldest};
        assert |m.Keys| == |m| && |rest.Keys| == |rest|;
      }
      CappedIsNewest(rest, max);
      forall kept, gone | kept in Capped(m, max) && gone in m && gone !in Capped(m, max) ensures Older(m, gone, kept) {
        if gone != oldest {
          assert Older(rest, gone, kept);
        }
      }
    }
  }

  /** Pruning drops exactly the expired entries and, past the limit, those that expire first. */
  lemma PrunedIsNewestUnexpired(m: Expiries, max: int, now: int)
    ensures var pruned := Pruned(m, max, now);
            && (forall key | key in pruned :: key in m && pruned[key] == m[key] > now)
            && (max >= 0 ==> |pruned| <= max)
            && (forall gone | gone in m && gone !in pruned ::
                  m[gone] <= now || (|pruned| == max && forall kept | kept in pruned :: Older(m, gone, kept)))
  {
    var live := Unexpired(m, now);
    CappedIsNewest(live, max);
    var pruned := Pruned(m, max, now);
    assert max < 0 || |live| <= max ==> pruned == live;
    forall gone | gone in m && gone !in pruned && m[gone] > now
      ensures |pruned| == max && forall kept | kept in pruned :: Older(m, gone, kept)
    {
      forall kept | kept in pruned ensures Older(m, gone, kept) {
        assert Older(live, gone, kept);
      }
    }
  }

  /** isNegativeCached: pruned at one instant, asked at a later one. */
  ghost function Asked(m: Expiries, max: int, key: Url, now: int, later: int): (Expiries, bool) {
    var pruned := Pruned(m, max, now);
    if key !in pruned then (pruned, false)
    else if later < pruned[key] then (pruned, true)
    else (pruned - {key}, false)
  }

  /** rememberNotFound: pruned, entered and pruned again at three instants. */
  ghost function NotFoundRemembered(m: Expiries, max: int, ttl: int, key: Url, now: int, later: int,
                                    last: int): Expiries {
    if ttl <= 0 || max <= 0 then m else Pruned(Pruned(m, max, now)[key := later + ttl], max, last)
  }

  /** The entry of the URL, if there is one, does not outlive the instant. */
  predicate ExpiresBy(m: Expiries, key: Url, instant: int) {
    key in m ==> m[key] <= instant
  }

  /** What bounds the life of one URL's entry: no question about any URL and no report of another one
      postpones its end, after which the URL is asked for again; a report of its own sets it anew. */
  lemma ForgottenInTime(m: Expiries, max: int, ttl: int, key: Url, other: Url, now: int, later: int, last: int,
                        instant: int)
    requires ExpiresBy(m, key, instant)
    ensures ExpiresBy(Asked(m, max, other, now, later).0, key, instant)
    ensures later >= instant ==> !Asked(m, max, key, now, later).1
    ensures other != key ==> ExpiresBy(NotFoundRemembered(m, max, ttl, other, now, later, last), key, instant)
    ensures ttl > 0 && max > 0 ==>
              ExpiresBy(NotFoundRemembered(m, max, ttl, key, now, later, last), key, later + ttl)
  {
    PrunedIsNewestUnexpired(m, max, now);
    PrunedIsNewestUnexpired(Pruned(m, max, now)[other := later + ttl], max, last);
    PrunedIsNewestUnexpired(Pruned(m, max, now)[key := later + ttl], max, last);
  }

  /** Entries come from nowhere else. */
  lemma EntriesKept(m: Expiries, max: int, ttl: int, key: Url, other: Url, now: int, later: int, last: int)
    ensures var asked := Asked(m, max, other, now, later).0;
            key in asked ==> key in m && asked[key] == m[key]
    ensures var after := NotFoundRemembered(m, max, ttl, other, now, later, last);
            key in after ==> (key in m && after[key] == m[key]) || (key == other && after[key] == later + ttl)
  {
    PrunedIsNewestUnexpired(m, max, now);
    PrunedIsNewestUnexpired(Pruned(m, max, now)[other := later + ttl], max, last);
  }

  // ---- What is remembered ----

  /** The other entries that expire later, or at the same instant with greater keys. */
  function Rivals(m: Expiries, key: Url, expiry: int): set<Url> {
    set other | other in m && other != key && (m[other] > expiry || (m[other] == expiry && KeyLess(key, other)))
  }

  /** Every other entry is older than a rival. */
  lemma RivalsAreNewest(m: Expiries, key: Url, expiry: int, other: Url, rival: Url)
    requires ExpiresBy(m, key, expiry) && rival in Rivals(m, key, expiry)
    requires other in m && other !in Rivals(m, key, expiry)
    ensures Older(m, other, rival) && !Older(m, rival, other)
  {
    KeyLessIsTotal(key, other);
    KeyLessIsTotal(other, rival);
    if m[other] == expiry == m[rival] && other != key {
      KeyLessIsTransitive(other, key, rival);
    }
  }

  /** With as many rivals as there is room, they fill it. */
  lemma RivalsFill(m: Expiries, max: nat, key: Url, expiry: int, now: int)
    requires ExpiresBy(m, key, expiry) && now < expiry && |Rivals(m, key, expiry)| >= max
    ensures Pruned(m, max, now).Keys <= Rivals(m, key, expiry) && |Pruned(m, max, now)| == max
  {
    var (pruned, rivals) := (Pruned(m, max, now), Rivals(m, key, expiry));
    PrunedIsNewestUnexpired(m, max, now);
    if rivals <= pruned.Keys {
      SubsetSize(rivals, pruned.Keys);
    } else {
      var gone :| gone in rivals && gone !in pruned;
      forall kept | kept in pruned ensures kept in rivals {
        if kept !in rivals {
          RivalsAreNewest(m, key, expiry, kept, gone);
        }
      }
    }
  }

  lemma {:induction false} SubsetSize(a: set<Url>, b: set<Url>)
    requires a <= b
    ensures |a| <= |b| && (|a| == |b| ==> a == b)
  {
    if a == {} {
    } else {
      var x :| x in a;
      SubsetSize(a - {x}, b - {x});
    }
  }

  lemma LostToRivals(m: Expiries, max: nat, key: Url, expiry: int, now: int, last: int)
    requires max > 0 && now <= last < expiry && key !in Pruned(Pruned(m, max, now)[key := expiry], max, last)
    ensures |Rivals(m, key, expiry)| >= max
  {
    var entered := Pruned(m, max, now)[key := expiry];
    var after := Pruned(entered, max, last);
    PrunedIsNewestUnexpired(m, max, now);
    PrunedIsNewestUnexpired(entered, max, last);
    forall kept | kept in after ensures kept in Rivals(m, key, expiry) {
      assert Older(entered, key, kept);
    }
    SubsetSize(after.Keys, Rivals(m, key, expiry));
  }

  lemma RivalsWin(m: Expiries, max: nat, key: Url, expiry: int, now: int, last: int)
    requires max > 0 && now <= last < expiry && ExpiresBy(m, key, expiry) && |Rivals(m, key, expiry)| >= max
    ensures key !in Pruned(Pruned(m, max, now)[key := expiry], max, last)
  {
    var pruned := Pruned(m, max, now);
    var entered := pruned[key := expiry];
    var after := Pruned(entered, max, last);
    PrunedIsNewestUnexpired(m, max, now);
    RivalsFill(m, max, key, expiry, now);
    PrunedIsNewestUnexpired(entered, max, last);
    RoomForAll(entered, after, pruned, key);
    var gone :| gone in entered && gone !in after;
    KeyLessIsTotal(key, gone);
    assert gone != key ==> Older(entered, key, gone) && !Older(entered, gone, key);
  }

  lemma ExpiredAtOnce(m: Expiries, max: int, key: Url, expiry: int, last: int)
    requires last >= expiry
    ensures key !in Pruned(m[key := expiry], max, last)
  {
    PrunedIsNewestUnexpired(m[key := expiry], max, last);
  }

  /** A URL just reported missing is remembered exactly if its time to live is not over by the last
      reading of the clock and fewer other entries than there is room for expire later, or at the same
      instant with greater keys. Its own entry, if it had one, came from an earlier report. */
  lemma RememberedIsKnown(m: Expiries, max: int, ttl: int, key: Url, now: int, later: int, last: int)
    requires ttl > 0 && max > 0 && now <= last && ExpiresBy(m, key, later + ttl)
    ensures key in NotFoundRemembered(m, max, ttl, key, now, later, last)
            <==> last < later + ttl && |Rivals(m, key, later + ttl)| < max
  {
    if last >= later + ttl {
      ExpiredAtOnce(Pruned(m, max, now), max, key, later + ttl, last);
    } else if key !in NotFoundRemembered(m, max, ttl, key, now, later, last) {
      LostToRivals(m, max, key, later + ttl, now, last);
    } else if |Rivals(m, key, later + ttl)| >= max {
      RivalsWin(m, max, key, later + ttl, now, last);
    }
  }

  /** Such a table: room for one, taken at the same instant by a greater key. */
  lemma RivalExample()
    ensures "a" !in NotFoundRemembered(map["b" := 30], 1, 30, "a", 0, 0, 0)
  {
    var m: Expiries := map["b" := 30];
    assert KeyLess("a", "b");
    assert Rivals(m, "a", 30) == {"b"};
    RememberedIsKnown(m, 1, 30, "a", 0, 0, 0);
  }

  /** A table that grew past its cap lost something. */
  lemma RoomForAll(entered: Expiries, after: Expiries, pruned: Expiries, key: Url)
    requires key !in pruned && entered.Keys == pruned.Keys + {key} && |after| <= |pruned|
    ensures exists gone :: gone in entered && gone !in after
  {
    assert |entered.Keys| == |pruned.Keys| + 1 && |pruned.Keys| == |pruned| && |after.Keys| == |after|;
    if entered.Keys <= after.Keys {
      SubsetSize(entered.Keys, after.Keys);
    }
  }
}
