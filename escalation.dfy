/** The escalation ladder the crawler climbs when a lounge detail page does not open, written
    once over its three steps: the liveness check, the rebuilding of an address from the page a
    request was redirected to, and the repair of an address. `Liveness.Crawler` supplies the
    crawler's own steps (`check_url_ok`, `try_recover_detail_url_from_redirect`,
    `repair_duplicated_airport_segment`). */
module Escalation {
  import opened Wrappers

  /** What the liveness check gives: it raises, or gives its verdict and the address it resolved to. */
  datatype Check = CheckRaised | Checked(ok: bool, resolved: string)

  /** The steps of the ladder. */
  datatype Steps = Steps(
    check: string -> Check,
    recover: (string, string) -> Option<string>,
    repair: string -> string)

  /** How the ladder ends: a check raised, a probe opened (the probe and the address it resolved
      to), or no probe opened. */
  datatype Outcome = Crashed | Opened(url: string, resolved: string) | NoneOpened

  /** The address the check resolved `url` to (`url` itself where the check raised: the ladder
      stops there). */
  function Resolved(s: Steps, url: string): string {
    match s.check(url)
    case CheckRaised => url
    case Checked(_, resolved) => resolved
  }

  function Listed(o: Option<string>): (r: seq<string>)
    ensures |r| <= 1 && (o.Some? ==> r == [o.value]) && (o.None? ==> r == [])
  {
    if o.Some? then [o.value] else []
  }

  /** The addresses the ladder tries, in order: the address itself; the address rebuilt from where
      it redirected; then the repair's probes. */
  function Probes(s: Steps, url: string): (ps: seq<string>)
    ensures 1 <= |ps| <= 4 && ps[0] == url
  {
    [url] + Listed(s.recover(url, Resolved(s, url))) + RepairProbes(s, url)
  }

  /** The repaired address, when the repair changed it, and the address rebuilt from where the
      repaired one redirected. */
  function RepairProbes(s: Steps, url: string): (ps: seq<string>)
    ensures |ps| <= 2
    ensures ps != [] <==> s.repair(url) != url
    ensures ps != [] ==> ps[0] == s.repair(url)
  {
    var repaired := s.repair(url);
    if repaired != url then [repaired] + Listed(s.recover(repaired, Resolved(s, repaired)))
    else []
  }

  /** A probe checked and refused. */
  predicate Refused(check: string -> Check, url: string) {
    check(url).Checked? && !check(url).ok
  }

  /** Try the probes in order and stop at the first that raises or opens. */
  function FirstOpen(check: string -> Check, probes: seq<string>): Outcome
    decreases |probes|
  {
    if probes == [] then NoneOpened
    else
      match check(probes[0])
      case CheckRaised => Crashed
      case Checked(ok, resolved) => if ok then Opened(probes[0], resolved) else FirstOpen(check, probes[1..])
  }

  /** The ladder: the first of the probes that raises or opens decides. */
  function Ladder(s: Steps, url: string): Outcome {
    FirstOpen(s.check, Probes(s, url))
  }

  // ---------------------------------------------------------------------------------------------
  // Trying probes in order

  /** An opened probe is the first of the probes that did not check refused, and it checked live. */
  lemma {:induction false} FirstOpenOpened(check: string -> Check, probes: seq<string>)
    requires FirstOpen(check, probes).Opened?
    ensures exists i | 0 <= i < |probes| ::
              && probes[i] == FirstOpen(check, probes).url
              && check(probes[i]) == Checked(true, FirstOpen(check, probes).resolved)
              && (forall j | 0 <= j < i :: Refused(check, probes[j]))
    decreases |probes|
  {
    var c := check(probes[0]);
    if !(c.Checked? && c.ok) {
      var rest := probes[1..];
      FirstOpenOpened(check, rest);
      var i :| 0 <= i < |rest| && rest[i] == FirstOpen(check, rest).url
               && check(rest[i]) == Checked(true, FirstOpen(check, rest).resolved)
               && (forall j | 0 <= j < i :: Refused(check, rest[j]));
      assert probes[i + 1] == rest[i];
      forall j | 0 <= j < i + 1 ensures Refused(check, probes[j]) {
        if j > 0 { assert probes[j] == rest[j - 1]; }
      }
    }
  }

  /** Conversely, the first probe that does not check refused decides: the ladder crashes if its
      check raised and opens it otherwise. */
  lemma {:induction false} FirstOpenStops(check: string -> Check, probes: seq<string>, i: nat)
    requires i < |probes| && !Refused(check, probes[i])
    requires forall j | 0 <= j < i :: Refused(check, probes[j])
    ensures FirstOpen(check, probes)
         == if check(probes[i]) == CheckRaised then Crashed else Opened(probes[i], check(probes[i]).resolved)
    decreases i
  {
    if i > 0 {
      assert Refused(check, probes[0]);
      var rest := probes[1..];
      forall j | 0 <= j < i - 1 ensures Refused(check, rest[j]) {
        assert rest[j] == probes[j + 1];
      }
      FirstOpenStops(check, rest, i - 1);
    }
  }

  /** No probe opens and none raises exactly when every probe checked refused. */
  lemma {:induction false} FirstOpenNone(check: string -> Check, probes: seq<string>)
    ensures FirstOpen(check, probes) == NoneOpened <==> forall j | 0 <= j < |probes| :: Refused(check, probes[j])
    decreases |probes|
  {
    if probes != [] {
      FirstOpenNone(check, probes[1..]);
      assert forall j | 1 <= j < |probes| :: probes[j] == probes[1..][j - 1];
    }
  }

  /** Trying two lists of probes one after the other. */
  lemma {:induction false} FirstOpenConcat(check: string -> Check, xs: seq<string>, ys: seq<string>)
    ensures FirstOpen(check, xs + ys)
         == if FirstOpen(check, xs) == NoneOpened then FirstOpen(check, ys) else FirstOpen(check, xs)
    decreases |xs|
  {
    if xs == [] {
      assert xs + ys == ys;
    } else {
      assert (xs + ys)[1..] == xs[1..] + ys;
      FirstOpenConcat(check, xs[1..], ys);
    }
  }

  /** Skipping a probe that checked refused. */
  lemma FirstOpenSkip(check: string -> Check, u: string, rest: seq<string>)
    requires Refused(check, u)
    ensures FirstOpen(check, [u] + rest) == FirstOpen(check, rest)
  {
    assert ([u] + rest)[1..] == rest;
  }

  // ---------------------------------------------------------------------------------------------
  // The ladder

  /** The ladder opens only a probe that checked live, and reports where that probe resolved to. */
  lemma LadderOpened(s: Steps, url: string)
    requires Ladder(s, url).Opened?
    ensures Ladder(s, url).url in Probes(s, url)
    ensures s.check(Ladder(s, url).url) == Checked(true, Ladder(s, url).resolved)
  {
    FirstOpenOpened(s.check, Probes(s, url));
  }

  /** The direct check comes first: it decides whenever it does not refuse. */
  lemma LadderDirectFirst(s: Steps, url: string)
    requires !Refused(s.check, url)
    ensures Ladder(s, url) == if s.check(url) == CheckRaised then Crashed else Opened(url, s.check(url).resolved)
  {
    FirstOpenStops(s.check, Probes(s, url), 0);
  }

  /** Once the address itself is refused, the ladder goes on with the recovered address and then
      the repair's probes. */
  lemma LadderAfterRefusal(s: Steps, url: string)
    requires Refused(s.check, url)
    ensures Ladder(s, url) == FirstOpen(s.check, Listed(s.recover(url, s.check(url).resolved)) + RepairProbes(s, url))
  {
    var recovered := Listed(s.recover(url, s.check(url).resolved));
    var later := RepairProbes(s, url);
    assert Probes(s, url) == [url] + (recovered + later);
    FirstOpenSkip(s.check, url, recovered + later);
  }

  /** Nothing opens when every probe is refused; the ladder then reports the first probe's
      resolution. */
  lemma LadderNoneOpened(s: Steps, url: string)
    ensures Ladder(s, url) == NoneOpened <==> forall j | 0 <= j < |Probes(s, url)| :: Refused(s.check, Probes(s, url)[j])
  {
    FirstOpenNone(s.check, Probes(s, url));
  }

  // ---------------------------------------------------------------------------------------------
  // The two places the crawler climbs the ladder

  /** The early-return form of `recheck_and_fix`: return at the first probe that decides. */
  method ClimbByReturns(s: Steps, url: string) returns (o: Outcome)
    ensures o == Ladder(s, url)
  {
    var c := s.check(url);
    if c.CheckRaised? {
      LadderDirectFirst(s, url);
      return Crashed;
    }
    if c.ok {
      LadderDirectFirst(s, url);
      return Opened(url, c.resolved);
    }
    LadderAfterRefusal(s, url);
    var recovered := s.recover(url, c.resolved);
    FirstOpenConcat(s.check, Listed(recovered), RepairProbes(s, url));
    if recovered.Some? {
      var cRec := s.check(recovered.value);
      if cRec.CheckRaised? {
        return Crashed;
      }
      if cRec.ok {
        return Opened(recovered.value, cRec.resolved);
      }
    }
    o := ClimbRepairByReturns(s, url);
  }

  /** ... its repair steps: the repaired address, then the address recovered from where it
      redirected. */
  method ClimbRepairByReturns(s: Steps, url: string) returns (o: Outcome)
    ensures o == FirstOpen(s.check, RepairProbes(s, url))
  {
    var repaired := s.repair(url);
    if repaired != url {
      var c2 := s.check(repaired);
      if c2.CheckRaised? {
        return Crashed;
      }
      if c2.ok {
        return Opened(repaired, c2.resolved);
      }
      var recovered2 := s.recover(repaired, c2.resolved);
      FirstOpenSkip(s.check, repaired, Listed(recovered2));
      if recovered2.Some? {
        var c3 := s.check(recovered2.value);
        if c3.CheckRaised? {
          return Crashed;
        }
        if c3.ok {
          return Opened(recovered2.value, c3.resolved);
        }
      }
    }
    return NoneOpened;
  }

  /** How `fetch_lounge_image` leaves the ladder: a check raised, or whether a probe opened, the
      probe it settled on and the address it resolved to. */
  datatype Climb = ClimbRaised | Climbed(ok: bool, url: string, resolved: string)

  /** The ladder as `fetch_lounge_image` leaves it: when nothing opens, the address itself and the
      address the first check resolved to. */
  function ClimbOf(s: Steps, url: string): Climb {
    match Ladder(s, url)
    case Crashed => ClimbRaised
    case Opened(probe, resolved) => Climbed(true, probe, resolved)
    case NoneOpened => Climbed(false, url, Resolved(s, url))
  }

  /** When the address cannot be rebuilt from where it redirected and the repair leaves it alone,
      the ladder tries the address alone. */
  lemma ProbesAlone(s: Steps, url: string)
    requires s.recover(url, Resolved(s, url)) == None && s.repair(url) == url
    ensures Probes(s, url) == [url]
  {
    assert Listed(s.recover(url, Resolved(s, url))) == [] && RepairProbes(s, url) == [];
  }

  /** When nothing opens, `fetch_lounge_image` keeps the address it was given and the address the
      first check resolved to, whether or not that is where a later probe went. */
  lemma ClimbFailed(s: Steps, url: string)
    requires ClimbOf(s, url).Climbed? && !ClimbOf(s, url).ok
    ensures Ladder(s, url) == NoneOpened
    ensures ClimbOf(s, url) == Climbed(false, url, Resolved(s, url))
  {
  }

  /** The form of `fetch_lounge_image`: `ok`, the lounge address and the resolved address are
      reassigned step by step. When nothing opens it keeps the address itself and the address the
      first check resolved to. */
  method ClimbBySteps(s: Steps, loungeUrl: string) returns (r: Climb)
    ensures r == ClimbOf(s, loungeUrl)
  {
    var url := loungeUrl;
    var c := s.check(url);
    if c.CheckRaised? {
      LadderDirectFirst(s, url);
      return ClimbRaised;
    }
    var ok := c.ok;
    var resolvedUrl := c.resolved;
    if !ok {
      LadderAfterRefusal(s, url);
      var recovered := s.recover(url, resolvedUrl);
      FirstOpenConcat(s.check, Listed(recovered), RepairProbes(s, url));
      if recovered.Some? {
        var cRec := s.check(recovered.value);
        if cRec.CheckRaised? {
          return ClimbRaised;
        }
        if cRec.ok {
          url := recovered.value;
          resolvedUrl := cRec.resolved;
          ok := true;
        }
      }
      if !ok {
        var repaired := s.repair(url);
        if repaired != url {
          var c2 := s.check(repaired);
          if c2.CheckRaised? {
            return ClimbRaised;
          }
          if c2.ok {
            url := repaired;
            resolvedUrl := c2.resolved;
            ok := true;
          } else {
            var recovered2 := s.recover(repaired, c2.resolved);
            FirstOpenSkip(s.check, repaired, Listed(recovered2));
            if recovered2.Some? {
              var c3 := s.check(recovered2.value);
              if c3.CheckRaised? {
                return ClimbRaised;
              }
              if c3.ok {
                url := recovered2.value;
                resolvedUrl := c3.resolved;
                ok := true;
              }
            }
          }
        }
      }
    } else {
      LadderDirectFirst(s, url);
    }
    return Climbed(ok, url, resolvedUrl);
  }
}
