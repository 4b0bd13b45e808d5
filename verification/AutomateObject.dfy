/**
 Runs of the whole automation cache: the public calls, each of which works on one key
 prefix or on both, one after the other.
 */
module AutomateObject {
  import opened Prelude
  import opened AutomateStore
  import opened AutomateSteps
  import Prefix = AutomateRuns

  datatype Both = Both(one: Level, multiple: Level)

  const NOTHING := Both(EMPTY, EMPTY)

  function On(b: Both, kind: Kind): Level {
    if kind.One? then b.one else b.multiple
  }

  /** A device with a configuration is cached under the configuration. */
  function Chosen(config: string): Kind {
    if config == "" then One else Multiple
  }

  function Key(device: string, config: string): string {
    if config == "" then device else config
  }

  datatype Request =
    | Set(scene: string, conds: seq<Condition>, acts: seq<Action>)
    | Fill(device: string, config: string, conds: seq<Condition>, acts: seq<Action>)
    | Mark(device: string, config: string)
    | Delete(scene: string)
    | Lapse

  /** What a request asks of one prefix. */
  function Share(kind: Kind, q: Request): Option<Prefix.Call> {
    match q
    case Set(s, conds, acts) => Some(Prefix.SetScene(s, conds, acts))
    case Fill(d, config, conds, acts) =>
      if kind == Chosen(config) then Some(Prefix.FillDevice(Key(d, config), conds, acts)) else None
    case Mark(d, config) => if kind == Chosen(config) then Some(Prefix.MarkNoTask(Key(d, config))) else None
    case Delete(s) => Some(Prefix.DeleteScene(s))
    case Lapse => Some(Prefix.Expire)
  }

  ghost predicate Move(kind: Kind, b: Both, q: Request, ok: bool, b': Both) {
    if Share(kind, q).None? then On(b', kind) == On(b, kind)
    else Prefix.Next(kind, On(b, kind), Share(kind, q).value, ok, On(b', kind))
  }

  /** Sets and deletes work on the configurations first, and on the devices if that went well. */
  ghost predicate Next(b: Both, q: Request, ok: bool, b': Both) {
    if ok || !(q.Set? || q.Delete?) then Move(Multiple, b, q, ok, b') && Move(One, b, q, ok, b')
    else
      || (Move(Multiple, b, q, false, b') && b'.one == b.one)
      || (Move(Multiple, b, q, true, b') && Move(One, b, q, false, b'))
  }

  datatype Event = Event(request: Request, ok: bool, post: Both)

  function Final(events: seq<Event>): Both {
    if events == [] then NOTHING else events[|events| - 1].post
  }

  ghost predicate Run(events: seq<Event>) {
    events != [] ==>
      var before, e := events[..|events| - 1], events[|events| - 1];
      Run(before) && Next(Final(before), e.request, e.ok, e.post)
  }

  /** How an event of the object looks from one prefix; where it does nothing there, like an expiry of no key. */
  ghost predicate Seen(kind: Kind, e: Event, p: Prefix.Event) {
    && p.post == On(e.post, kind)
    && (p.call == Prefix.Expire || Share(kind, e.request) == Some(p.call))
    && (e.ok && Share(kind, e.request).Some? ==> p == Prefix.Event(Share(kind, e.request).value, true, p.post))
  }

  lemma SeenStep(kind: Kind, b: Both, e: Event) returns (p: Prefix.Event)
    requires Next(b, e.request, e.ok, e.post)
    ensures Seen(kind, e, p) && Prefix.Next(kind, On(b, kind), p.call, p.ok, p.post)
  {
    var l' := On(e.post, kind);
    if Share(kind, e.request).None? {
      p := Prefix.Event(Prefix.Expire, true, l');
    } else if Move(kind, b, e.request, e.ok, e.post) {
      p := Prefix.Event(Share(kind, e.request).value, e.ok, l');
    } else if Move(kind, b, e.request, true, e.post) {
      p := Prefix.Event(Share(kind, e.request).value, true, l');
    } else {
      p := Prefix.Event(Prefix.Expire, true, l');
    }
  }

  /** Each prefix sees a run of its own. */
  lemma {:induction false} SeenRun(kind: Kind, events: seq<Event>) returns (ps: seq<Prefix.Event>)
    requires Run(events)
    ensures |ps| == |events| && forall i :: 0 <= i < |ps| ==> Seen(kind, events[i], ps[i])
    ensures Prefix.Run(kind, ps) && Prefix.Final(ps) == On(Final(events), kind)
  {
    if events == [] {
      ps := [];
    } else {
      var before, e := events[..|events| - 1], events[|events| - 1];
      var init := SeenRun(kind, before);
      var p := SeenStep(kind, Final(before), e);
      ps := init + [p];
      assert ps[..|init|] == init;
    }
  }

  /** The request stores actions for the scene, under some prefix, if it gets that far. */
  predicate Writes(q: Request, s: string) {
    || (Share(One, q).Some? && Prefix.Writes(One, Share(One, q).value, s).Some?)
    || (Share(Multiple, q).Some? && Prefix.Writes(Multiple, Share(Multiple, q).value, s).Some?)
  }

  /**
   After a successful delete of a scene no answer for any device returns it, under either
   prefix, until some request writes it again: whatever fails and expires in between, and
   whatever keys the answer itself could not read.
   */
  lemma DeletedStaysUnread(events: seq<Event>, cut: nat, s: string, device: string, config: string, a: Answer)
    requires Run(events) && 0 < cut <= |events|
    requires events[cut - 1].ok && events[cut - 1].request == Delete(s)
    requires forall i :: cut <= i < |events| ==> !Writes(events[i].request, s)
    requires PartOf(On(Final(events), Chosen(config)), Key(device, config), a)
    ensures !Returns(a, s)
  {
    var kind := Chosen(config);
    var ps := SeenRun(kind, events);
    assert Seen(kind, events[cut - 1], ps[cut - 1]);
    forall i | cut <= i < |ps|
      ensures Prefix.Writes(kind, ps[i].call, s) == None
    {
      assert Seen(kind, events[i], ps[i]) && !Writes(events[i].request, s);
    }
    Prefix.DeletedStaysGone(kind, ps, cut, s);
  }
}
