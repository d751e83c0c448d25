/** The limiter object (src/rate_limit.rs): its table is updated in place by the methods below. */
module RateLimiter {
  import opened Wrappers
  import opened RateWindow

  /** What capacity enforcement may do to a table. Nothing dropped is newer than anything kept, apart
      from the protected entry, which is never dropped; nothing is dropped that did not have to be. */
  ghost predicate Enforced(maxEntries: nat, protected: Ip, t: Table, t': Table) {
    && t'.Keys <= t.Keys
    && (forall k | k in t' :: t'[k] == t[k])
    && (protected in t ==> protected in t')
    && (forall gone, kept | gone in t && gone !in t' && kept in t' && kept != protected ::
          t[gone].start <= t[kept].start)
    && (|t| <= maxEntries ==> t' == t)
    && (|t| > maxEntries ==> |t'| == maxEntries || (maxEntries == 0 && t'.Keys == {protected}))
  }

  class RateLimiter {
    const settings: Settings
    var entries: Table
    /** Every table so far and every completed check, so that facts about runs speak of this object. */
    ghost var states: seq<Table>
    ghost var events: seq<Event>

    ghost predicate Valid()
      reads this
    {
      && settings.maxEntries >= 1
      && IsRun(settings, states, events)
      && entries == states[|events|]
    }

    constructor WithClock(raw: Settings)
      ensures Valid()
      ensures settings.maxRequests == raw.maxRequests && settings.window == raw.window
      ensures settings.maxEntries == if raw.maxEntries == 0 then 1 else raw.maxEntries
      ensures entries == map[] && events == []
    {
      settings := if raw.maxEntries == 0 then raw.(maxEntries := 1) else raw;
      entries := map[];
      states, events := [map[]], [];
    }

    /** One check; `now` is the clock reading it takes first. */
    method Check(ip: Ip, now: int) returns (outcome: Outcome)
      requires Valid()
      modifies this
      ensures Valid()
      ensures |events| == |old(events)| + 1 && events[..|old(events)|] == old(events)
      ensures events[|old(events)|].now == now && events[|old(events)|].ip == ip
      ensures events[|old(events)|].outcome == outcome
      ensures CheckStep(settings, old(entries), events[|old(events)|], entries)
      ensures |entries| <= settings.maxEntries && ip in entries
    {
      RunKeepsCapacity(settings, states, events, |events|);
      ghost var before := entries;
      PruneStale(now);
      outcome := Record(ip, now);
      EnforceCapacity(ip);
      ghost var ev := TheEvent(settings, before, now, ip, outcome, entries);
      CheckKeepsCapacity(settings, before, ev, entries);
      RunExtends(settings, states, events, ev, entries);
      states, events := states + [entries], events + [ev];
    }

    method PruneStale(now: int)
      modifies this`entries
      ensures entries == Pruned(settings, old(entries), now)
      ensures forall ip :: ip in entries <==> ip in old(entries) && now - old(entries)[ip].start <= settings.window
      ensures forall ip | ip in entries :: entries[ip] == old(entries)[ip]
    {
      var cutoff := now - settings.window;
      entries := map ip | ip in entries && entries[ip].start >= cutoff :: entries[ip];
    }

    /** The block that runs under the entry's lock. */
    method Record(ip: Ip, now: int) returns (outcome: Outcome)
      modifies this`entries
      ensures entries == old(entries)[ip := Touch(settings, Lookup(old(entries), ip), now).0]
      ensures outcome == Touch(settings, Lookup(old(entries), ip), now).1
    {
      if ip !in entries {
        entries := entries[ip := Entry(now, 0)];
      }
      if now - entries[ip].start >= settings.window {
        entries := entries[ip := Entry(now, 0)];
      }
      if entries[ip].count >= settings.maxRequests {
        var elapsed := now - entries[ip].start;
        var remaining := settings.window - elapsed;
        outcome := Refused(if 0 <= remaining then remaining else FALLBACK_NANOS);
      } else {
        entries := entries[ip := entries[ip].(count := entries[ip].count + 1)];
        outcome := Admitted;
      }
    }

    method EnforceCapacity(protected: Ip)
      modifies this`entries
      ensures Enforced(settings.maxEntries, protected, old(entries), entries)
    {
      if |entries| <= settings.maxEntries {
        return;
      }
      while |entries| > settings.maxEntries
        invariant entries.Keys <= old(entries).Keys
        invariant forall k | k in entries :: entries[k] == old(entries)[k]
        invariant protected in old(entries) ==> protected in entries
        invariant forall gone, kept |
                    gone in old(entries) && gone !in entries && kept in entries && kept != protected ::
                    old(entries)[gone].start <= old(entries)[kept].start
        invariant |entries| >= settings.maxEntries
        decreases |entries|
      {
        var candidate := OldestKeyExcluding(Some(protected));
        if candidate.None? {
          assert entries.Keys <= {protected};
          candidate := OldestKeyExcluding(None);
        }
        if candidate.None? {
          break;
        }
        if candidate.value == protected {
          assert entries.Keys == {protected};
          break;
        }
        ghost var keys := entries.Keys;
        entries := entries - {candidate.value};
        assert entries.Keys == keys - {candidate.value};
      }
    }

    /** The first key with the oldest window, in an iteration order the table does not fix. */
    method OldestKeyExcluding(excluded: Option<Ip>) returns (selected: Option<Ip>)
      ensures selected.None? <==> forall k | k in entries :: excluded == Some(k)
      ensures selected.Some? ==>
                && selected.value in entries && excluded != selected
                && forall k | k in entries && excluded != Some(k) :: entries[selected.value].start <= entries[k].start
    {
      selected := None;
      var unread := entries.Keys;
      while unread != {}
        invariant unread <= entries.Keys
        invariant selected.None? <==> forall k | k in entries.Keys - unread :: excluded == Some(k)
        invariant selected.Some? ==>
                    && selected.value in entries && excluded != selected
                    && forall k | k in entries.Keys - unread && excluded != Some(k) ::
                         entries[selected.value].start <= entries[k].start
        decreases unread
      {
        var key :| key in unread;
        unread := unread - {key};
        if excluded == Some(key) {
          continue;
        }
        if selected.None? || entries[key].start < entries[selected.value].start {
          selected := Some(key);
        }
      }
    }
  }

  /** Enforcing capacity after the locked step amounts to one check of the relational model: when the
      table exceeds its room, exactly one entry went, an oldest other one. */
  lemma TheEvent(s: Settings, t: Table, now: int, ip: Ip, outcome: Outcome, t': Table) returns (ev: Event)
    requires s.maxEntries >= 1 && |t| <= s.maxEntries
    requires Enforced(s.maxEntries, ip, Entered(s, t, now, ip), t')
    requires outcome == Touch(s, Lookup(Pruned(s, t, now), ip), now).1
    ensures ev.now == now && ev.ip == ip && ev.outcome == outcome && CheckStep(s, t, ev, t')
  {
    var pruned, entered := Pruned(s, t, now), Entered(s, t, now, ip);
    if |entered| > s.maxEntries {
      SubsetSize(pruned.Keys, t.Keys);
      assert entered.Keys == pruned.Keys + {ip};
      var gone := entered.Keys - t'.Keys;
      assert entered.Keys == t'.Keys + gone;
      assert |gone| == 1;
      var v :| v in gone;
      assert gone == {v} by { SubsetSize({v}, gone); }
      assert t'.Keys == entered.Keys - {v};
      assert t' == entered - {v};
      ev := Event(now, ip, outcome, Some(v));
    } else {
      ev := Event(now, ip, outcome, None);
    }
  }
}
