/** The chunked transport session: a generation counter and a bounded cache of
    frozen payloads (gdr/api.py). */
module Transport {
  import opened Common
  import opened ChunkFrames

  const SNAPSHOT_LIMIT: nat := 8

  type Sha = seq<Byte> -> Digest

  datatype Key = Key(verb: string, args: seq<string>)

  datatype Frozen = Frozen(generation: int, payload: string)

  datatype State = State(generation: int, snapshots: map<Key, Frozen>)

  /** The requests a session serves. `latest` is the envelope that computing the
      answer anew would give at that moment. */
  datatype Request =
    | Bump
    | Ask(key: Key, latest: string)
    | Pull(index: int, key: Key, latest: string)

  datatype Response = Generation(value: int) | Body(plan: Plan) | Pulled(frame: Frame)

  // ---- one step ------------------------------------------------------------------------

  function Remember(s: State, key: Key, payload: string): State {
    var kept := if |s.snapshots| >= SNAPSHOT_LIMIT then map[] else s.snapshots;
    s.(snapshots := kept[key := Frozen(s.generation, payload)])
  }

  predicate Current(s: State, key: Key) {
    key in s.snapshots && s.snapshots[key].generation == s.generation
  }

  /** The payload a frame request is served from. */
  function Source(s: State, key: Key, latest: string): string {
    if Current(s, key) then s.snapshots[key].payload else latest
  }

  function AfterPull(s: State, key: Key, latest: string): State {
    if Current(s, key) then s else Remember(s, key, latest)
  }

  function FrameAt(frames: seq<Frame>, index: int): Frame {
    if 0 <= index < |frames| then frames[index] else OutOfRange(index, |frames| - 1)
  }

  function Step(sha: Sha, s: State, request: Request): (State, Response) {
    match request
    case Bump => (s.(generation := s.generation + 1), Generation(s.generation + 1))
    case Ask(key, latest) =>
      var plan := TransportPlan(sha, latest);
      (if plan.Chunked? then Remember(s, key, latest) else s, Body(plan))
    case Pull(index, key, latest) =>
      (AfterPull(s, key, latest), Pulled(FrameAt(ChunkPayload(sha, Source(s, key, latest), CHUNK_SIZE), index)))
  }

  class Session {
    var generation: int
    var snapshots: map<Key, Frozen>

    function View(): State
      reads this
    {
      State(generation, snapshots)
    }

    constructor ()
      ensures View() == State(0, map[])
    {
      generation, snapshots := 0, map[];
    }

    method NextGeneration() returns (value: int)
      modifies this
      ensures forall sha :: Step(sha, old(View()), Bump) == (View(), Generation(value))
    {
      generation := generation + 1;
      value := generation;
    }

    method RememberChunkSnapshot(key: Key, payload: string)
      modifies this`snapshots
      ensures View() == Remember(old(View()), key, payload)
    {
      if |snapshots| >= SNAPSHOT_LIMIT {
        snapshots := map[];
      }
      snapshots := snapshots[key := Frozen(generation, payload)];
    }

    method ChunkSnapshot(key: Key, latest: string) returns (payload: string)
      modifies this`snapshots
      ensures payload == Source(old(View()), key, latest) && View() == AfterPull(old(View()), key, latest)
    {
      if key in snapshots {
        var cached := snapshots[key];
        if cached.generation == generation {
          return cached.payload;
        }
      }
      RememberChunkSnapshot(key, latest);
      payload := latest;
    }

    method TransportResponse(sha: Sha, key: Key, latest: string) returns (body: Plan)
      modifies this`snapshots
      ensures Step(sha, old(View()), Ask(key, latest)) == (View(), Body(body))
    {
      body := TransportPlan(sha, latest);
      if body.Chunked? {
        RememberChunkSnapshot(key, latest);
      }
    }

    method ChunkResponse(sha: Sha, index: int, key: Key, latest: string) returns (frame: Frame)
      modifies this`snapshots
      ensures Step(sha, old(View()), Pull(index, key, latest)) == (View(), Pulled(frame))
    {
      var payload := ChunkSnapshot(key, latest);
      var frames := ChunkPayload(sha, payload, CHUNK_SIZE);
      if index < 0 || index >= |frames| {
        return OutOfRange(index, |frames| - 1);
      }
      frame := frames[index];
    }
  }

  // ---- whole runs ------------------------------------------------------------------------

  function After(sha: Sha, s: State, run: seq<Request>): State {
    if run == [] then s else Step(sha, After(sha, s, run[..|run| - 1]), run[|run| - 1]).0
  }

  /** The answer to the request at place `i`. */
  function Answer(sha: Sha, s: State, run: seq<Request>, i: nat): Response
    requires i < |run|
  {
    Step(sha, After(sha, s, run[..i]), run[i]).1
  }

  /** Whether the request freezes a payload. */
  predicate Remembers(s: State, request: Request) {
    || (request.Ask? && |request.latest| > INLINE_LIMIT)
    || (request.Pull? && !Current(s, request.key))
  }

  predicate Clears(s: State, request: Request) {
    Remembers(s, request) && |s.snapshots| >= SNAPSHOT_LIMIT
  }

  lemma StepSize(sha: Sha, s: State, request: Request)
    ensures var after := Step(sha, s, request).0;
            && (Clears(s, request) ==> |after.snapshots| == 1)
            && (Remembers(s, request) && !Clears(s, request) ==>
                |after.snapshots| <= |s.snapshots| + 1 <= SNAPSHOT_LIMIT)
            && (!Remembers(s, request) ==> after.snapshots == s.snapshots)
  {
    if Remembers(s, request) {
      UpdateSize(if |s.snapshots| >= SNAPSHOT_LIMIT then map[] else s.snapshots, request.key,
          Frozen(s.generation, Source(s, request.key, request.latest)));
      UpdateSize(if |s.snapshots| >= SNAPSHOT_LIMIT then map[] else s.snapshots, request.key,
          Frozen(s.generation, request.latest));
    }
  }

  lemma UpdateSize(m: map<Key, Frozen>, key: Key, value: Frozen)
    ensures |m| <= |m[key := value]| <= |m| + 1
    ensures m == map[] ==> |m[key := value]| == 1
  {
    assert m[key := value].Keys == m.Keys + {key};
    if key in m {
      assert m.Keys + {key} == m.Keys;
    }
  }

  /** The cache never holds more than its limit, on any run. */
  lemma {:induction false} CacheBounded(sha: Sha, s: State, run: seq<Request>)
    requires |s.snapshots| <= SNAPSHOT_LIMIT
    ensures |After(sha, s, run).snapshots| <= SNAPSHOT_LIMIT
  {
    if run != [] {
      CacheBounded(sha, s, run[..|run| - 1]);
      StepSize(sha, After(sha, s, run[..|run| - 1]), run[|run| - 1]);
    }
  }

  /** How many requests of the run freeze a payload. */
  function Frozens(sha: Sha, s: State, run: seq<Request>): nat {
    if run == [] then 0
    else
      var front := run[..|run| - 1];
      Frozens(sha, s, front) + (if Remembers(After(sha, s, front), run[|run| - 1]) then 1 else 0)
  }

  /** No request of the run disturbs the frozen payload of `key`: the generation
      stands, the cache is not cleared and `key` is not asked for anew. */
  ghost predicate Undisturbed(sha: Sha, s: State, key: Key, run: seq<Request>) {
    run == []
    || (var front := run[..|run| - 1];
        Undisturbed(sha, s, key, front) && Quiet(After(sha, s, front), key, run[|run| - 1]))
  }

  predicate Quiet(s: State, key: Key, request: Request) {
    !request.Bump? && !Clears(s, request) && !(request.Ask? && request.key == key && |request.latest| > INLINE_LIMIT)
  }

  lemma {:induction false} UndisturbedPrefix(sha: Sha, s: State, key: Key, run: seq<Request>, n: nat)
    requires Undisturbed(sha, s, key, run) && n <= |run|
    ensures Undisturbed(sha, s, key, run[..n])
  {
    if n == |run| {
      assert run[..n] == run;
    } else {
      UndisturbedPrefix(sha, s, key, run[..|run| - 1], n);
      assert run[..|run| - 1][..n] == run[..n];
    }
  }

  /** A frozen payload stays frozen through every undisturbed run. */
  lemma {:induction false} FrozenStays(sha: Sha, s: State, key: Key, run: seq<Request>)
    requires Current(s, key) && Undisturbed(sha, s, key, run)
    ensures var after := After(sha, s, run);
            && after.generation == s.generation
            && key in after.snapshots && after.snapshots[key] == s.snapshots[key]
  {
    if run != [] {
      var n := |run| - 1;
      FrozenStays(sha, s, key, run[..n]);
    }
  }

  /** Every frame pulled in an undisturbed run comes from the one frozen payload. */
  lemma PulledFrame(sha: Sha, s: State, key: Key, run: seq<Request>, i: nat)
    requires Current(s, key) && Undisturbed(sha, s, key, run)
    requires i < |run| && run[i].Pull? && run[i].key == key
    ensures Answer(sha, s, run, i) ==
      Pulled(FrameAt(ChunkPayload(sha, s.snapshots[key].payload, CHUNK_SIZE), run[i].index))
  {
    UndisturbedPrefix(sha, s, key, run, i);
    FrozenStays(sha, s, key, run[..i]);
  }

  /** A client asks for a key, gets a meta frame, and pulls its slices at any
      places of the run that follows, among any other traffic. */
  ghost predicate PullsAll(run: seq<Request>, key: Key, total: nat, places: seq<nat>) {
    && |places| == total
    && forall k :: 0 <= k < total ==>
         places[k] < |run| && run[places[k]].Pull? && run[places[k]].key == key && run[places[k]].index == k + 1
  }

  /** The chunked answer to an ask, with the slices pulled in any undisturbed run
      after it, reassembles to exactly the payload asked for. */
  lemma PullConsistent(sha: Sha, s: State, key: Key, latest: string, run: seq<Request>, places: seq<nat>,
                       texts: seq<string>)
    requires |latest| > INLINE_LIMIT
    requires var (asked, _) := Step(sha, s, Ask(key, latest));
             var total := |ChunkPayload(sha, latest, CHUNK_SIZE)| - 1;
             && Undisturbed(sha, asked, key, run) && PullsAll(run, key, total, places)
             && |texts| == total
             && forall k :: 0 <= k < total ==> Answer(sha, asked, run, places[k]) == Pulled(Slice(texts[k]))
    ensures var (_, answer) := Step(sha, s, Ask(key, latest));
            answer.Body? && answer.plan.Chunked? && Reassemble(sha, answer.plan.meta, texts) == Ok(latest)
  {
    var asked := Step(sha, s, Ask(key, latest)).0;
    var frames := ChunkPayload(sha, latest, CHUNK_SIZE);
    forall k | 0 <= k < |texts| ensures frames[k + 1] == Slice(texts[k]) {
      PulledFrame(sha, asked, key, run, places[k]);
    }
    ReassembleUndoesChunk(sha, latest, CHUNK_SIZE, texts);
  }

  /** Every slice request of such a run is answered with a slice. */
  lemma PullsAnswered(sha: Sha, s: State, key: Key, latest: string, run: seq<Request>, i: nat)
    requires |latest| > INLINE_LIMIT
    requires Undisturbed(sha, Step(sha, s, Ask(key, latest)).0, key, run)
    requires i < |run| && run[i].Pull? && run[i].key == key
    requires 1 <= run[i].index < |ChunkPayload(sha, latest, CHUNK_SIZE)|
    ensures var answer := Answer(sha, Step(sha, s, Ask(key, latest)).0, run, i);
            answer.Pulled? && answer.frame.Slice?
  {
    PulledFrame(sha, Step(sha, s, Ask(key, latest)).0, key, run, i);
    FramesAreSlices(sha, latest, CHUNK_SIZE);
  }

  /** A run with no bump and no new ask for the key is undisturbed as long as it
      freezes no more payloads than the cache has room for. */
  lemma {:induction false} RoomKeepsFrozen(sha: Sha, s: State, key: Key, run: seq<Request>)
    requires forall i :: 0 <= i < |run| ==> !run[i].Bump? && !(run[i].Ask? && run[i].key == key)
    requires |s.snapshots| + Frozens(sha, s, run) <= SNAPSHOT_LIMIT
    ensures Undisturbed(sha, s, key, run)
    ensures |After(sha, s, run).snapshots| <= |s.snapshots| + Frozens(sha, s, run)
  {
    if run != [] {
      var n := |run| - 1;
      RoomKeepsFrozen(sha, s, key, run[..n]);
      StepSize(sha, After(sha, s, run[..n]), run[n]);
    }
  }

  /** The frames pulled right after an ask describe its answer, whatever computing
      it anew would give by then, exactly when the answer was long enough to be
      frozen or the same payload was frozen already. */
  lemma SourceAfterAsk(sha: Sha, s: State, key: Key, latest: string)
    ensures (forall next :: Source(Step(sha, s, Ask(key, latest)).0, key, next) == latest)
      <==> |latest| > INLINE_LIMIT || (Current(s, key) && s.snapshots[key].payload == latest)
  {
    var asked := Step(sha, s, Ask(key, latest)).0;
    var other := latest + "!";
    assert Source(asked, key, other) == latest || Source(asked, key, other) != latest;
  }

  /** A short answer leaves an older, longer payload frozen: frames pulled next
      describe the old one. */
  lemma InlineAskKeepsOldFrames(sha: Sha, key: Key, old_payload: string, latest: string, index: int)
    requires |old_payload| > INLINE_LIMIT >= |latest|
    ensures var run := [Ask(key, old_payload), Ask(key, latest), Pull(index, key, latest)];
            Answer(sha, State(0, map[]), run, 2) == Pulled(FrameAt(ChunkPayload(sha, old_payload, CHUNK_SIZE), index))
  {
    var run := [Ask(key, old_payload), Ask(key, latest), Pull(index, key, latest)];
    assert run[..2] == [Ask(key, old_payload), Ask(key, latest)];
    assert run[..2][..1] == [Ask(key, old_payload)];
    assert run[..2][..1][..0] == [];
    assert After(sha, State(0, map[]), run[..2][..1]) == Step(sha, State(0, map[]), run[0]).0;
  }

  ghost predicate NoneFromLater(s: State) {
    forall k :: k in s.snapshots ==> s.snapshots[k].generation <= s.generation
  }

  lemma {:induction false} RunsNeverAhead(sha: Sha, s: State, run: seq<Request>)
    requires NoneFromLater(s)
    ensures NoneFromLater(After(sha, s, run))
  {
    if run != [] {
      RunsNeverAhead(sha, s, run[..|run| - 1]);
    }
  }

  /** After a bump, whatever came before it, no frozen payload is served again:
      each key's next frame comes from a new computation. */
  lemma BumpForgets(sha: Sha, run: seq<Request>, key: Key, latest: string)
    ensures Source(Step(sha, After(sha, State(0, map[]), run), Bump).0, key, latest) == latest
  {
    RunsNeverAhead(sha, State(0, map[]), run);
  }
}
