/** The validator's document path: while validation is valid it is the JSON pointer of the current value. */
module SchemaPaths {
  import opened Bytes
  import opened Events
  import opened Values
  import opened Options
  import opened Schemas
  import opened SchemaStreaming
  import opened PointerTokens
  import Decimal
  import SchemaTheorem

  // ---------------------------------------------------------------------------
  // Where the events of a value are
  // ---------------------------------------------------------------------------

  /** The pointer after each event of `v`: `here` inside the value, `parent` once it has ended. */
  function Locations(v: Value, here: seq<Text>, parent: seq<Text>): seq<seq<Text>>
    decreases v
  {
    match v
    case Array(elements) => [here] + ElementLocations(elements, 0, here) + [parent]
    case Object(members) => [here] + MemberLocations(members, here) + [parent]
    case _ => [parent]
  }

  function ElementLocations(elements: seq<Value>, index: nat, parent: seq<Text>): seq<seq<Text>>
    decreases elements
  {
    if elements == [] then []
    else
      Locations(elements[0], parent + [Decimal.Digits(index)], parent) + ElementLocations(elements[1..], index + 1, parent)
  }

  function MemberLocations(members: seq<Member>, parent: seq<Text>): seq<seq<Text>>
    decreases members
  {
    if members == [] then []
    else
      var here := parent + [members[0].name];
      [here] + Locations(members[0].value, here, parent) + MemberLocations(members[1..], parent)
  }

  // ---------------------------------------------------------------------------
  // Following the path event by event
  // ---------------------------------------------------------------------------

  datatype Frame = InElements(next: nat) | InMembers

  /** The open containers and the tokens of the current value. */
  datatype Tracker = Tracker(frames: seq<Frame>, tokens: seq<Text>)

  function DropLast<T>(s: seq<T>): seq<T> {
    if s == [] then [] else s[..|s| - 1]
  }

  /** A value begins: in an array it gets the next index. */
  function Enter(t: Tracker): Tracker {
    if t.frames != [] && t.frames[|t.frames| - 1].InElements? then
      var i := t.frames[|t.frames| - 1].next;
      Tracker(t.frames[..|t.frames| - 1] + [InElements(i + 1)], t.tokens + [Decimal.Digits(i)])
    else t
  }

  function Leave(t: Tracker): Tracker {
    t.(tokens := DropLast(t.tokens))
  }

  function Track(t: Tracker, e: Event): Tracker {
    match e
    case StartArray => var u := Enter(t); u.(frames := u.frames + [InElements(0)])
    case StartObject => var u := Enter(t); u.(frames := u.frames + [InMembers])
    case EndArray(_) => Leave(t.(frames := DropLast(t.frames)))
    case EndObject(_) => Leave(t.(frames := DropLast(t.frames)))
    case Key(name) => t.(tokens := t.tokens + [name])
    case _ => Leave(Enter(t))
  }

  function TrackAll(t: Tracker, events: seq<Event>): Tracker
    decreases |events|
  {
    if events == [] then t else TrackAll(Track(t, events[0]), events[1..])
  }

  /** The tokens after each event. */
  function Trail(t: Tracker, events: seq<Event>): (r: seq<seq<Text>>)
    ensures |r| == |events|
    decreases |events|
  {
    if events == [] then [] else [Track(t, events[0]).tokens] + Trail(Track(t, events[0]), events[1..])
  }

  lemma {:induction false} TrailConcat(t: Tracker, a: seq<Event>, b: seq<Event>)
    ensures Trail(t, a + b) == Trail(t, a) + Trail(TrackAll(t, a), b)
    ensures TrackAll(t, a + b) == TrackAll(TrackAll(t, a), b)
    decreases |a|
  {
    hide Track;
    if a == [] {
      assert a + b == b;
    } else {
      assert (a + b)[0] == a[0] && (a + b)[1..] == a[1..] + b;
      TrailConcat(Track(t, a[0]), a[1..], b);
    }
  }

  lemma TrailOne(t: Tracker, e: Event)
    ensures Trail(t, [e]) == [Track(t, e).tokens] && TrackAll(t, [e]) == Track(t, e)
  {
    hide Track;
    assert [e][1..] == [];
  }

  /** The tracker follows the locations of a value and comes back to its parent. */
  lemma {:induction false} TrailValue(t: Tracker, v: Value)
    ensures Trail(t, EventsOf(v)) == Locations(v, Enter(t).tokens, DropLast(Enter(t).tokens))
    ensures TrackAll(t, EventsOf(v)) == Leave(Enter(t))
    decreases v, 1
  {
    hide Enter, Trail, TrackAll;
    match v {
      case Array(elements) =>
        var u := Track(t, StartArray);
        TrailElements(u, Enter(t).frames, elements, 0);
        TrailContainer(t, StartArray, ElementEvents(elements), EndArray(|elements|));
        Left(Enter(t), InElements(|elements|));
      case Object(members) =>
        var u := Track(t, StartObject);
        TrailMembers(u, Enter(t).frames, members);
        TrailContainer(t, StartObject, MemberEvents(members), EndObject(|members|));
        Left(Enter(t), InMembers);
      case _ =>
        ScalarTrail(t, v);
    }
  }

  lemma ScalarTrail(t: Tracker, v: Value)
    requires !v.Array? && !v.Object?
    ensures Trail(t, EventsOf(v)) == [DropLast(Enter(t).tokens)]
    ensures TrackAll(t, EventsOf(v)) == Leave(Enter(t))
  {
    hide Enter;
    TrailOne(t, EventsOf(v)[0]);
  }

  lemma TrailContainer(t: Tracker, e0: Event, inner: seq<Event>, e1: Event)
    ensures Trail(t, [e0] + inner + [e1])
      == [Track(t, e0).tokens] + Trail(Track(t, e0), inner) + [Track(TrackAll(Track(t, e0), inner), e1).tokens]
    ensures TrackAll(t, [e0] + inner + [e1]) == Track(TrackAll(Track(t, e0), inner), e1)
  {
    hide Track;
    TrailConcat(t, [e0] + inner, [e1]);
    TrailConcat(t, [e0], inner);
    TrailOne(t, e0);
    TrailOne(TrackAll(t, [e0] + inner), e1);
  }

  lemma Left(t: Tracker, frame: Frame)
    ensures t.(frames := DropLast(t.frames + [frame])) == t
  {
    assert (t.frames + [frame])[..|t.frames|] == t.frames;
  }

  lemma {:induction false} TrailElements(t: Tracker, outer: seq<Frame>, elements: seq<Value>, index: nat)
    requires t.frames == outer + [InElements(index)]
    ensures Trail(t, ElementEvents(elements)) == ElementLocations(elements, index, t.tokens)
    ensures TrackAll(t, ElementEvents(elements)) == t.(frames := outer + [InElements(index + |elements|)])
    decreases elements, 0
  {
    if elements == [] {
      assert ElementEvents(elements) == [];
    } else {
      hide Enter, Leave, Locations, EventsOf, Trail, TrackAll, Track, DropLast;
      NextElement(t, outer, index);
      TrailConcat(t, EventsOf(elements[0]), ElementEvents(elements[1..]));
      TrailValue(t, elements[0]);
      TrailElements(Leave(Enter(t)), outer, elements[1..], index + 1);
    }
  }

  lemma NextElement(t: Tracker, outer: seq<Frame>, index: nat)
    requires t.frames == outer + [InElements(index)]
    ensures Enter(t) == Tracker(outer + [InElements(index + 1)], t.tokens + [Decimal.Digits(index)])
    ensures Leave(Enter(t)) == t.(frames := outer + [InElements(index + 1)])
    ensures DropLast(Enter(t).tokens) == t.tokens
  {
    assert t.frames[..|t.frames| - 1] == outer;
  }

  lemma Dropped<T>(s: seq<T>, x: T)
    ensures DropLast(s + [x]) == s
  {}

  lemma {:induction false} TrailMembers(t: Tracker, outer: seq<Frame>, members: seq<Member>)
    requires t.frames == outer + [InMembers]
    ensures Trail(t, MemberEvents(members)) == MemberLocations(members, t.tokens)
    ensures TrackAll(t, MemberEvents(members)) == t
    decreases members, 0
  {
    if members != [] {
      var name, value := members[0].name, members[0].value;
      var u := t.(tokens := t.tokens + [name]);
      assert Track(t, Key(name)) == u && Enter(u) == u;
      Dropped(t.tokens, name);
      assert Leave(u) == t;
      hide Enter, Leave, Locations, EventsOf, Trail, TrackAll, Track, DropLast;
      TrailConcat(t, [Key(name)] + EventsOf(value), MemberEvents(members[1..]));
      TrailConcat(t, [Key(name)], EventsOf(value));
      TrailOne(t, Key(name));
      TrailValue(u, value);
      TrailMembers(t, outer, members[1..]);
    }
  }

  // ---------------------------------------------------------------------------
  // The validator's path
  // ---------------------------------------------------------------------------

  /** The contexts match the open containers, and the path spells the tokens. */
  predicate Linked(v: Validator, t: Tracker) {
    && v.path == PathText(t.tokens)
    && |v.stack| == |t.frames|
    && forall i :: 0 <= i < |v.stack| ==>
         t.frames[i] == if v.stack[i].inArray then InElements(v.stack[i].elementIndex) else InMembers
  }

  lemma PopTokens(tokens: seq<Text>)
    ensures PopToken(PathText(tokens)) == PathText(DropLast(tokens))
  {
    if tokens != [] {
      PopLast(tokens);
    }
  }

  lemma BeginLinked(v: Validator, t: Tracker)
    requires Linked(v, t) && Begin(v).Some?
    ensures Linked(Begin(v).value.0, Enter(t))
  {
    hide ElementSchema, PathText;
    if v.stack != [] && Last(v.stack).inArray {
      var i := Last(v.stack).elementIndex;
      assert t.frames[|t.frames| - 1] == InElements(i);
      PathAppend(t.tokens, Decimal.Digits(i));
      IndexToken(i);
    }
  }

  lemma ForwardLinked(v: Validator, t: Tracker, e: Event)
    requires Linked(v, t)
    ensures Linked(v.(stack := ForwardAll(v.stack, e)), t)
  {
    hide Step, PathText;
  }

  lemma OpenedLinked(v: Validator, t: Tracker, s: Schema, e: Event)
    requires Begins(e) && v.valid && Linked(v, t) && Opened(v, s, e).valid
    ensures Linked(Opened(v, s, e),
      if e.StartArray? then t.(frames := t.frames + [InElements(0)])
      else if e.StartObject? then t.(frames := t.frames + [InMembers])
      else Leave(t))
  {
    hide PathText, Entered;
    SchemaTheorem.EnteredSchema(s, e);
    PopTokens(t.tokens);
  }

  /** One event keeps the link, as long as it is accepted. */
  lemma StepLinked(v: Validator, t: Tracker, e: Event)
    requires v.valid && Linked(v, t) && Step(v, e).valid
    ensures Linked(Step(v, e), Track(t, e))
  {
    hide PathText, Opened, Forward, Begin, Enter, Linked;
    var fed := v.(stack := ForwardAll(v.stack, e));
    ForwardLinked(v, t, e);
    if Begins(e) {
      BeginLinked(fed, t);
      var begun := Begin(fed).value;
      SchemaTheorem.BeginKeeps(fed);
      OpenedLinked(begun.0, Enter(t), begun.1, e);
    } else if e.Key? {
      KeyLinked(fed, t, e.bytes);
    } else {
      EndLinked(fed, t);
    }
  }

  lemma KeyLinked(v: Validator, t: Tracker, name: Text)
    requires v.stack != [] && Linked(v, t) && Keyed(Last(v.stack), name).Some?
    ensures Linked(v.(stack := SetLast(v.stack, Keyed(Last(v.stack), name).value), path := v.path + [SOLIDUS] + EscapedToken(name)),
                   t.(tokens := t.tokens + [name]))
  {
    hide PathText;
    PathAppend(t.tokens, name);
  }

  lemma EndLinked(v: Validator, t: Tracker)
    requires v.stack != [] && Linked(v, t)
    ensures Linked(v.(stack := v.stack[..|v.stack| - 1], path := PopToken(v.path)), Leave(t.(frames := DropLast(t.frames))))
  {
    hide PathText, PopToken;
    PopTokens(t.tokens);
  }

  lemma {:induction false} FeedLinked(v: Validator, t: Tracker, events: seq<Event>)
    requires Linked(v, t) && Feed(v, events).valid
    ensures Linked(Feed(v, events), TrackAll(t, events))
    decreases |events|
  {
    hide Linked, Step, Track;
    if !v.valid {
      SchemaTheorem.InvalidStays(v, events);
    }
    if events != [] {
      if !Step(v, events[0]).valid {
        SchemaTheorem.InvalidStays(Step(v, events[0]), events[1..]);
      }
      StepLinked(v, t, events[0]);
      FeedLinked(Step(v, events[0]), Track(t, events[0]), events[1..]);
    }
  }

  lemma {:induction false} TrailPrefix(t: Tracker, events: seq<Event>, n: nat)
    requires 0 < n <= |events|
    ensures Trail(t, events)[n - 1] == TrackAll(t, events[..n]).tokens
    decreases n
  {
    hide Track;
    assert events[..n][0] == events[0] && events[..n][1..] == events[1..][..n - 1];
    if n > 1 {
      TrailPrefix(Track(t, events[0]), events[1..], n - 1);
    }
  }

  /** After any number of events of a value: if the validator is still valid, its path is the pointer of where it is. */
  lemma PathIsPointer(k: Keywords, v: Value, n: nat)
    requires 0 < n <= |EventsOf(v)|
    requires Feed(Fresh(Compile(k)), EventsOf(v)[..n]).valid
    ensures |Locations(v, [], [])| == |EventsOf(v)|
    ensures Feed(Fresh(Compile(k)), EventsOf(v)[..n]).path == PathText(Locations(v, [], [])[n - 1])
  {
    hide Compile, EventsOf, Feed, Locations;
    var t := Tracker([], []);
    FeedLinked(Fresh(Compile(k)), t, EventsOf(v)[..n]);
    TrailValue(t, v);
    TrailPrefix(t, EventsOf(v), n);
  }

  // ---------------------------------------------------------------------------
  // The path after a failure
  // ---------------------------------------------------------------------------

  /** The pointer of the value that each event of `v` begins or ends, or of the member it names. */
  function Sites(v: Value, here: seq<Text>): seq<seq<Text>>
    decreases v
  {
    match v
    case Array(elements) => [here] + ElementSites(elements, 0, here) + [here]
    case Object(members) => [here] + MemberSites(members, here) + [here]
    case _ => [here]
  }

  function ElementSites(elements: seq<Value>, index: nat, parent: seq<Text>): seq<seq<Text>>
    decreases elements
  {
    if elements == [] then []
    else Sites(elements[0], parent + [Decimal.Digits(index)]) + ElementSites(elements[1..], index + 1, parent)
  }

  function MemberSites(members: seq<Member>, parent: seq<Text>): seq<seq<Text>>
    decreases members
  {
    if members == [] then []
    else
      var here := parent + [members[0].name];
      [here] + Sites(members[0].value, here) + MemberSites(members[1..], parent)
  }

  /** Where the tracker is while an event is handled. */
  function Site(t: Tracker, e: Event): seq<Text> {
    match e
    case EndArray(_) => t.tokens
    case EndObject(_) => t.tokens
    case Key(name) => if t.frames == [] then t.tokens else t.tokens + [name]
    case _ => Enter(t).tokens
  }

  function SiteTrail(t: Tracker, events: seq<Event>): (r: seq<seq<Text>>)
    ensures |r| == |events|
    decreases |events|
  {
    if events == [] then [] else [Site(t, events[0])] + SiteTrail(Track(t, events[0]), events[1..])
  }

  lemma {:induction false} SiteConcat(t: Tracker, a: seq<Event>, b: seq<Event>)
    ensures SiteTrail(t, a + b) == SiteTrail(t, a) + SiteTrail(TrackAll(t, a), b)
    decreases |a|
  {
    hide Track, Site;
    if a == [] {
      assert a + b == b;
    } else {
      assert (a + b)[0] == a[0] && (a + b)[1..] == a[1..] + b;
      SiteConcat(Track(t, a[0]), a[1..], b);
    }
  }

  lemma SiteOne(t: Tracker, e: Event)
    ensures SiteTrail(t, [e]) == [Site(t, e)]
  {
    hide Track, Site;
    assert [e][1..] == [];
  }

  lemma {:induction false} SitesOfValue(t: Tracker, v: Value)
    ensures SiteTrail(t, EventsOf(v)) == Sites(v, Enter(t).tokens)
    decreases v, 1
  {
    hide Enter, SiteTrail, TrackAll;
    match v {
      case Array(elements) =>
        var u := Track(t, StartArray);
        TrailElements(u, Enter(t).frames, elements, 0);
        SitesOfElements(u, Enter(t).frames, elements, 0);
        SiteContainer(t, StartArray, ElementEvents(elements), EndArray(|elements|));
      case Object(members) =>
        var u := Track(t, StartObject);
        TrailMembers(u, Enter(t).frames, members);
        SitesOfMembers(u, Enter(t).frames, members);
        SiteContainer(t, StartObject, MemberEvents(members), EndObject(|members|));
      case _ =>
        ScalarSite(t, v);
    }
  }

  lemma ScalarSite(t: Tracker, v: Value)
    requires !v.Array? && !v.Object?
    ensures SiteTrail(t, EventsOf(v)) == [Enter(t).tokens]
  {
    hide Enter;
    SiteOne(t, EventsOf(v)[0]);
  }

  lemma SiteContainer(t: Tracker, e0: Event, inner: seq<Event>, e1: Event)
    ensures SiteTrail(t, [e0] + inner + [e1])
      == [Site(t, e0)] + SiteTrail(Track(t, e0), inner) + [Site(TrackAll(Track(t, e0), inner), e1)]
  {
    hide Track, Site;
    SiteConcat(t, [e0] + inner, [e1]);
    SiteConcat(t, [e0], inner);
    TrailConcat(t, [e0], inner);
    TrailOne(t, e0);
    SiteOne(t, e0);
    SiteOne(TrackAll(t, [e0] + inner), e1);
  }

  lemma {:induction false} SitesOfElements(t: Tracker, outer: seq<Frame>, elements: seq<Value>, index: nat)
    requires t.frames == outer + [InElements(index)]
    ensures SiteTrail(t, ElementEvents(elements)) == ElementSites(elements, index, t.tokens)
    decreases elements, 0
  {
    if elements == [] {
      assert ElementEvents(elements) == [];
    } else {
      hide Enter, Leave, Sites, EventsOf, SiteTrail, Trail, TrackAll, Track, DropLast;
      NextElement(t, outer, index);
      SiteConcat(t, EventsOf(elements[0]), ElementEvents(elements[1..]));
      TrailValue(t, elements[0]);
      SitesOfValue(t, elements[0]);
      SitesOfElements(Leave(Enter(t)), outer, elements[1..], index + 1);
    }
  }

  lemma {:induction false} SitesOfMembers(t: Tracker, outer: seq<Frame>, members: seq<Member>)
    requires t.frames == outer + [InMembers]
    ensures SiteTrail(t, MemberEvents(members)) == MemberSites(members, t.tokens)
    decreases members, 0
  {
    if members != [] {
      var name, value := members[0].name, members[0].value;
      var u := t.(tokens := t.tokens + [name]);
      assert Track(t, Key(name)) == u && Enter(u) == u && Site(t, Key(name)) == u.tokens;
      Dropped(t.tokens, name);
      assert Leave(u) == t;
      hide Enter, Leave, Sites, Site, EventsOf, SiteTrail, Trail, TrackAll, Track, DropLast;
      SiteConcat(t, [Key(name)] + EventsOf(value), MemberEvents(members[1..]));
      SiteConcat(t, [Key(name)], EventsOf(value));
      TrailConcat(t, [Key(name)], EventsOf(value));
      TrailOne(t, Key(name));
      SiteOne(t, Key(name));
      TrailValue(u, value);
      SitesOfValue(u, value);
      SitesOfMembers(t, outer, members[1..]);
    }
  }

  /** A value that may not begin, or fails its own checks, is pointed at. */
  lemma BeginFails(v: Validator, t: Tracker, e: Event)
    requires v.valid && Linked(v, t) && Begins(e) && !Step(v, e).valid
    ensures Step(v, e).path == PathText(Enter(t).tokens)
  {
    hide PathText, Linked, Begin, Enter, ForwardAll;
    var fed := v.(stack := ForwardAll(v.stack, e));
    ForwardLinked(v, t, e);
    if Begin(fed).Some? {
      BeginLinked(fed, t);
      SchemaTheorem.BeginKeeps(fed);
      LinkedPath(Begin(fed).value.0, Enter(t));
    } else {
      SchemaTheorem.BeginForward(v, e);
      RefusedPath(v, t);
    }
  }

  lemma LinkedPath(v: Validator, t: Tracker)
    requires Linked(v, t)
    ensures v.path == PathText(t.tokens)
  {}

  /** No schema allows the value: the index of an element is already in the path. */
  lemma RefusedPath(v: Validator, t: Tracker)
    requires Linked(v, t) && Begin(v).None?
    ensures (if v.stack != [] && Last(v.stack).inArray then ElementPath(v) else v.path) == PathText(Enter(t).tokens)
  {
    hide ElementSchema, PathText;
    if v.stack != [] && Last(v.stack).inArray {
      var i := Last(v.stack).elementIndex;
      assert t.frames[|t.frames| - 1] == InElements(i);
      PathAppend(t.tokens, Decimal.Digits(i));
      IndexToken(i);
    }
  }

  lemma KeyFails(v: Validator, name: Text)
    requires v.valid && !Step(v, Key(name)).valid
    ensures Step(v, Key(name)).path == if v.stack == [] then v.path else v.path + [SOLIDUS] + EscapedToken(name)
  {
    hide EscapedToken, ForwardAll;
  }

  lemma EndFails(v: Validator, e: Event)
    requires v.valid && (e.EndObject? || e.EndArray?) && !Step(v, e).valid
    ensures Step(v, e).path == v.path
  {
    hide EndHolds, Combines, ForwardAll, PopToken;
  }

  /** The first event that fails leaves the path at the value it begins or ends, or at the member it names. */
  lemma StepFails(v: Validator, t: Tracker, e: Event)
    requires v.valid && Linked(v, t) && !Step(v, e).valid
    ensures Step(v, e).path == PathText(Site(t, e))
  {
    hide Step, PathText, EscapedToken, Enter;
    if Begins(e) {
      BeginFails(v, t, e);
    } else if e.Key? {
      KeyFails(v, e.bytes);
      PathAppend(t.tokens, e.bytes);
    } else {
      EndFails(v, e);
    }
  }

  lemma {:induction false} SitePrefix(t: Tracker, events: seq<Event>, n: nat)
    requires n < |events|
    ensures SiteTrail(t, events)[n] == Site(TrackAll(t, events[..n]), events[n])
    decreases n
  {
    hide Track, Site;
    if n == 0 {
      assert events[..0] == [];
    } else {
      assert events[..n][0] == events[0] && events[..n][1..] == events[1..][..n - 1];
      SitePrefix(Track(t, events[0]), events[1..], n - 1);
    }
  }

  lemma FirstFailure(v: Validator, events: seq<Event>) returns (n: nat)
    requires v.valid && !Feed(v, events).valid
    ensures n < |events| && Feed(v, events[..n]).valid && !Feed(v, events[..n + 1]).valid
    ensures Feed(v, events) == Step(Feed(v, events[..n]), events[n])
    decreases |events|
  {
    hide Step;
    if !Step(v, events[0]).valid {
      assert events[..0] == [] && events[..1] == [events[0]];
      SchemaTheorem.FeedOne(v, events[0]);
      SchemaTheorem.InvalidStays(Step(v, events[0]), events[1..]);
      n := 0;
    } else {
      var m := FirstFailure(Step(v, events[0]), events[1..]);
      n := m + 1;
      assert events[..n][0] == events[0] && events[..n][1..] == events[1..][..m];
      assert events[..n + 1][0] == events[0] && events[..n + 1][1..] == events[1..][..m + 1];
    }
  }

  /**
   * When a value is refused, the path read afterwards is the pointer of what the first failing event began or ended, or of
   * the member it named: the place where validation stopped.
   */
  lemma FailurePointer(k: Keywords, v: Value) returns (n: nat)
    requires !Feed(Fresh(Compile(k)), EventsOf(v)).valid
    ensures |Sites(v, [])| == |EventsOf(v)| && n < |EventsOf(v)|
    ensures Feed(Fresh(Compile(k)), EventsOf(v)[..n]).valid && !Feed(Fresh(Compile(k)), EventsOf(v)[..n + 1]).valid
    ensures Feed(Fresh(Compile(k)), EventsOf(v)).path == PathText(Sites(v, [])[n])
  {
    hide Compile, EventsOf, Feed, Step, Sites, Linked, Site, PathText;
    var t, start, events := Tracker([], []), Fresh(Compile(k)), EventsOf(v);
    n := FirstFailure(start, events);
    FreshLinked(Compile(k));
    FeedLinked(start, t, events[..n]);
    StepFails(Feed(start, events[..n]), TrackAll(t, events[..n]), events[n]);
    SitesOfValue(t, v);
    SitePrefix(t, events, n);
  }

  lemma FreshLinked(s: Schema)
    ensures Linked(Fresh(s), Tracker([], []))
  {}
}
