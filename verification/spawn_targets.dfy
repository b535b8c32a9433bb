/** The target spawner as a state machine over the scene state: spawning a
    target, the countdown tick, the pointer-down hit resolution, the one-shot
    timeout and the end of the fade-out, each a pure transition. The random
    id, the free-position finder and the game-over routine live outside the
    modelled code: the first two are inputs of a spawn, the third is the
    flag transition `GameOver`. */
module SpawnTargets {
  import opened Wrappers
  import opened ActiveSet
  import opened Countdown
  import opened ScoreText

  datatype Position = Position(x: int, y: int)

  /** The scene-level state the spawner reads and writes. Ids are kept as the
      text a template literal renders them to. */
  datatype Scene = Scene(
    isGameOver: bool,
    score: int,
    scoreText: string,
    correctTargetID: string,
    data: Data)

  /** Where a target is in its life: listed and clickable, scored and
      fading out (still clickable, no longer listed), or destroyed. */
  datatype Status = Live | Fading | Destroyed

  /** One spawned target: its texture and position, its countdown ring, the
      callbacks still to come, and its status. */
  datatype Target = Target(
    texture: string,
    position: Position,
    ring: Ring,
    timeoutPending: bool,
    fadePending: bool,
    status: Status)

  /** The scene plus every target spawned so far; the k-th target's sprite
      is `Sprite(k)` and its ring graphics `Overlay(k)`. */
  datatype World = World(scene: Scene, targets: seq<Target>)

  /** The texture a spawn gives a target with the given id. */
  function TextureFor(targetId: string): (texture: string)
    ensures |texture| == |"target"| + |targetId|
    ensures texture[..|"target"|] == "target" && texture[|"target"|..] == targetId
  {
    "target" + targetId
  }

  /** A freshly spawned target: live, ring full, timeout scheduled. */
  function NewTarget(texture: string, position: Position): Target {
    Target(texture, position, FreshRing, true, false, Live)
  }

  /** `spawnTarget`: without a free position nothing happens; otherwise the
      new sprite is pushed onto "activeTargets" and its ring graphics onto
      "activeTargetsTimer". */
  function SpawnTarget(w: World, texture: string, freePosition: Option<Position>): (r: World)
    ensures freePosition.None? ==> r == w
    ensures freePosition.Some? ==>
      var k := |w.targets|;
      var before, after := w.scene.data, r.scene.data;
      && |after.activeTargets| == |before.activeTargets| + 1
      && after.activeTargets[..|before.activeTargets|] == before.activeTargets
      && after.activeTargets[|before.activeTargets|] == Sprite(k)
      && |after.activeTargetsTimer| == |before.activeTargetsTimer| + 1
      && after.activeTargetsTimer[..|before.activeTargetsTimer|] == before.activeTargetsTimer
      && after.activeTargetsTimer[|before.activeTargetsTimer|] == Overlay(k)
      && r.scene.(data := before) == w.scene
      && |r.targets| == k + 1 && r.targets[..k] == w.targets
      && r.targets[k] == NewTarget(texture, freePosition.value)
  {
    match freePosition
    case None => w
    case Some(p) =>
      var k := |w.targets|;
      var data := w.scene.data;
      var data' := Data(data.activeTargets + [Sprite(k)], data.activeTargetsTimer + [Overlay(k)]);
      World(w.scene.(data := data'), w.targets + [NewTarget(texture, p)])
  }

  /** `spawnTargets`: nothing happens once the game is over; otherwise a
      target with the drawn id is spawned at the found position, if any. */
  function SpawnTargets(w: World, targetId: string, freePosition: Option<Position>): (r: World)
    ensures w.scene.isGameOver || freePosition.None? ==> r == w
    ensures !w.scene.isGameOver && freePosition.Some? ==>
      && |r.targets| == |w.targets| + 1
      && r.targets[|w.targets|].texture == "target" + targetId
      && r.scene.data.activeTargets == w.scene.data.activeTargets + [Sprite(|w.targets|)]
      && r.scene.data.activeTargetsTimer == w.scene.data.activeTargetsTimer + [Overlay(|w.targets|)]
      && r.targets[..|w.targets|] == w.targets
  {
    if w.scene.isGameOver then w else SpawnTarget(w, TextureFor(targetId), freePosition)
  }

  /** The hit test: the clicked texture names the currently correct id. */
  predicate IsCurrentlyCorrect(texture: string, correctTargetID: string): (b: bool)
    ensures b <==> texture == TextureFor(correctTargetID)
    ensures b ==> texture[|"target"|..] == correctTargetID
  {
    texture == "target" + correctTargetID
  }

  /** A spawned target is a correct hit exactly when its id is the correct id. */
  lemma CorrectIffSameId(targetId: string, correctTargetID: string)
    ensures IsCurrentlyCorrect(TextureFor(targetId), correctTargetID) <==> targetId == correctTargetID
  {
    var prefix := "target";
    if IsCurrentlyCorrect(TextureFor(targetId), correctTargetID) {
      assert (prefix + targetId)[|prefix|..] == targetId;
      assert (prefix + correctTargetID)[|prefix|..] == correctTargetID;
    }
  }

  /** The data store after the shared removal call of the hit and timeout
      paths. The captured list is the one stored under "activeTargets", and
      the splice acts on that list in place. */
  function UnlistedData(data: Data, k: nat): Data {
    var removal := RemoveTargetFromActiveTargets(Sprite(k), data.activeTargets, data, [ActiveTargetsSlot, ActiveTargetsTimerSlot]);
    removal.data.Set(ActiveTargetsSlot, removal.list)
  }

  lemma UnlistedDataAtMostOnce(data: Data, k: nat)
    ensures Count(data.activeTargets, Sprite(k)) <= 1 ==>
      && UnlistedData(data, k).activeTargets == Without(data.activeTargets, Sprite(k))
      && UnlistedData(data, k).activeTargetsTimer == data.activeTargetsTimer
  {
    if Count(data.activeTargets, Sprite(k)) == 1 {
      OnlyFirstSlotRepublished(Sprite(k), data);
    } else if Count(data.activeTargets, Sprite(k)) == 0 {
      assert Sprite(k) !in data.activeTargets;
      WithoutAbsent(data.activeTargets, Sprite(k));
      RemovalOfAbsent(Sprite(k), data.activeTargets, data, [ActiveTargetsSlot, ActiveTargetsTimerSlot]);
    }
  }

  /** The removal call of the hit path and of the timeout path, made with
      both slot names: only the data store changes. With the sprite listed
      at most once, it is filtered out of "activeTargets", and
      "activeTargetsTimer" is left as it was. */
  function Unlist(scene: Scene, k: nat): (r: Scene)
    ensures r.(data := scene.data) == scene
    ensures Count(scene.data.activeTargets, Sprite(k)) <= 1 ==>
      && r.data.activeTargets == Without(scene.data.activeTargets, Sprite(k))
      && r.data.activeTargetsTimer == scene.data.activeTargetsTimer
  {
    UnlistedDataAtMostOnce(scene.data, k);
    scene.(data := UnlistedData(scene.data, k))
  }

  /** What a pointer-down leaves behind: a scored hit, or the unchanged
      world handed to the game-over routine. */
  datatype Click = Scored(world: World) | GameOverCalled(world: World)

  /** The pointer-down handler of target k (delivered only to a sprite that
      has not been destroyed). A correct click adds one to the score, shows
      it, stops the tick event, destroys the ring, unlists the target and
      starts its fade-out; a wrong one only calls the game-over routine. */
  function PointerDown(w: World, k: nat): (r: Click)
    requires k < |w.targets| && w.targets[k].status != Destroyed
    ensures r.Scored? <==> IsCurrentlyCorrect(w.targets[k].texture, w.scene.correctTargetID)
    ensures r.GameOverCalled? ==> r.world == w
    ensures |r.world.targets| == |w.targets|
    ensures r.Scored? ==>
      var s, s' := w.scene, r.world.scene;
      var t, t' := w.targets[k], r.world.targets[k];
      && s'.score == s.score + 1
      && s'.scoreText == ScoreLabel(s'.score)
      && ReadScore(s'.scoreText) == Some(s'.score)
      && s'.(score := s.score, scoreText := s.scoreText, data := s.data) == s
      && (forall j :: 0 <= j < |w.targets| && j != k ==> r.world.targets[j] == w.targets[j])
      && !t'.ring.ticking && t'.ring.destroyed && t'.ring.elapsed == t.ring.elapsed
      && t'.status == Fading && t'.fadePending
      && t'.(ring := t.ring, fadePending := t.fadePending, status := t.status) == t
      && (Count(s.data.activeTargets, Sprite(k)) <= 1 ==>
            && s'.data.activeTargets == Without(s.data.activeTargets, Sprite(k))
            && s'.data.activeTargetsTimer == s.data.activeTargetsTimer)
  {
    var t := w.targets[k];
    if IsCurrentlyCorrect(t.texture, w.scene.correctTargetID) then
      var updatedScore := w.scene.score + 1;
      var scene := w.scene.(score := updatedScore, scoreText := ScoreLabel(updatedScore));
      ScoreLabelRoundTrip(updatedScore);
      var ring := t.ring.(ticking := false, destroyed := true);
      var t' := t.(ring := ring, fadePending := true, status := Fading);
      Scored(World(Unlist(scene, k), w.targets[k := t']))
    else
      GameOverCalled(w)
  }

  /** The one-shot timeout of target k: nothing if the target is already
      destroyed; otherwise it is unlisted, its ring and then itself destroyed. */
  function Timeout(w: World, k: nat): (r: World)
    requires k < |w.targets| && w.targets[k].timeoutPending
    ensures |r.targets| == |w.targets| && !r.targets[k].timeoutPending
    ensures forall j :: 0 <= j < |w.targets| && j != k ==> r.targets[j] == w.targets[j]
    ensures w.targets[k].status == Destroyed ==>
      r.scene == w.scene && r.targets[k] == w.targets[k].(timeoutPending := false)
    ensures w.targets[k].status != Destroyed ==>
      var t, t' := w.targets[k], r.targets[k];
      && t'.status == Destroyed && t'.ring.destroyed
      && t'.ring.ticking == t.ring.ticking && t'.ring.elapsed == t.ring.elapsed
      && t'.fadePending == t.fadePending
      && t'.(ring := t.ring, timeoutPending := true, status := t.status) == t
      && r.scene.(data := w.scene.data) == w.scene
      && (Count(w.scene.data.activeTargets, Sprite(k)) <= 1 ==>
            && r.scene.data.activeTargets == Without(w.scene.data.activeTargets, Sprite(k))
            && r.scene.data.activeTargetsTimer == w.scene.data.activeTargetsTimer)
  {
    var t := w.targets[k].(timeoutPending := false);
    if t.status == Destroyed then
      w.(targets := w.targets[k := t])
    else
      var t' := t.(ring := t.ring.(destroyed := true), status := Destroyed);
      World(Unlist(w.scene, k), w.targets[k := t'])
  }

  /** The last tween of a scored target completes and destroys it. */
  function FadeComplete(w: World, k: nat): (r: World)
    requires k < |w.targets| && w.targets[k].fadePending
    ensures r.scene == w.scene && |r.targets| == |w.targets|
    ensures forall j :: 0 <= j < |w.targets| && j != k ==> r.targets[j] == w.targets[j]
    ensures r.targets[k].status == Destroyed && !r.targets[k].fadePending
    ensures r.targets[k].(fadePending := true, status := w.targets[k].status) == w.targets[k]
  {
    w.(targets := w.targets[k := w.targets[k].(fadePending := false, status := Destroyed)])
  }

  /** One firing of target k's tick event. */
  function TickTarget(w: World, k: nat): (r: World)
    requires k < |w.targets|
    ensures r.scene == w.scene && |r.targets| == |w.targets|
    ensures forall j :: 0 <= j < |w.targets| && j != k ==> r.targets[j] == w.targets[j]
    ensures r.targets[k].ring == Tick(w.targets[k].ring)
    ensures r.targets[k].(ring := w.targets[k].ring) == w.targets[k]
  {
    w.(targets := w.targets[k := w.targets[k].(ring := Tick(w.targets[k].ring))])
  }

  /** The game-over routine is not part of this model; its one effect the
      spawner depends on is the flag it sets. */
  function GameOver(scene: Scene): (r: Scene)
    ensures r.isGameOver
    ensures r.(isGameOver := scene.isGameOver) == scene
  {
    scene.(isGameOver := true)
  }

  /** The callbacks the engine delivers, in whatever order it delivers them. */
  datatype Event =
    | SpawnAttempt(targetId: string, freePosition: Option<Position>)
    | TickFired(k: nat)
    | PointerPressed(k: nat)
    | TimeoutFired(k: nat)
    | FadeFinished(k: nat)
    | CorrectIdChosen(id: string)

  /** One event; an event the engine would not deliver (no such target, a
      removed tick event, a destroyed sprite, a callback already run) is
      no step at all. Besides the spawner's own callbacks, code outside it
      may choose a new correct id at any time. No step forgets a target,
      changes its texture or position, or brings a destroyed one back, and
      only a spawn adds one. */
  function Step(w: World, e: Event): (r: World)
    ensures |w.targets| <= |r.targets| <= |w.targets| + 1
    ensures |r.targets| == |w.targets| + 1 ==> e.SpawnAttempt? && !w.scene.isGameOver
    ensures w.scene.isGameOver ==> r.scene.isGameOver
    ensures forall j :: 0 <= j < |w.targets| ==>
      r.targets[j].texture == w.targets[j].texture && r.targets[j].position == w.targets[j].position
    ensures forall j :: 0 <= j < |w.targets| && w.targets[j].status == Destroyed ==> r.targets[j].status == Destroyed
  {
    match e
    case SpawnAttempt(id, position) => SpawnTargets(w, id, position)
    case TickFired(k) =>
      if k < |w.targets| then TickTarget(w, k) else w
    case PointerPressed(k) =>
      if k < |w.targets| && w.targets[k].status != Destroyed then
        match PointerDown(w, k)
        case Scored(w') => w'
        case GameOverCalled(w') => w'.(scene := GameOver(w'.scene))
      else w
    case TimeoutFired(k) =>
      if k < |w.targets| && w.targets[k].timeoutPending then Timeout(w, k) else w
    case FadeFinished(k) =>
      if k < |w.targets| && w.targets[k].fadePending then FadeComplete(w, k) else w
    case CorrectIdChosen(id) => w.(scene := w.scene.(correctTargetID := id))
  }

  function Run(w: World, events: seq<Event>): World
    decreases |events|
  {
    if |events| == 0 then w else Run(Step(w, events[0]), events[1..])
  }

  /** The world at the start: lists empty, nothing spawned. */
  function Start(isGameOver: bool, score: int, scoreText: string, correctTargetID: string): World {
    World(Scene(isGameOver, score, scoreText, correctTargetID, Data([], [])), [])
  }

  /** Sprites of the targets still live, in spawn order. */
  function LiveSprites(ts: seq<Target>): seq<Obj>
    decreases |ts|
  {
    if |ts| == 0 then []
    else LiveSprites(ts[..|ts| - 1]) + (if ts[|ts| - 1].status == Live then [Sprite(|ts| - 1)] else [])
  }

  /** Ring graphics of every target ever spawned, in spawn order. */
  function AllOverlays(n: nat): (r: seq<Obj>)
    ensures |r| == n
    decreases n
  {
    if n == 0 then [] else AllOverlays(n - 1) + [Overlay(n - 1)]
  }

  /** What the code keeps true: "activeTargets" lists exactly the live
      targets in spawn order, "activeTargetsTimer" lists every ring ever
      created, and a fade is pending only on a target that was hit. */
  ghost predicate Valid(w: World) {
    && w.scene.data.activeTargets == LiveSprites(w.targets)
    && w.scene.data.activeTargetsTimer == AllOverlays(|w.targets|)
    && forall i :: 0 <= i < |w.targets| ==> FadeConsistent(w.targets[i])
  }

  /** A fade is pending only on a target that was hit: it is no longer live
      and its tick event has been removed, which only a correct click does
      (`OnlyHitStopsTick`). A target fading out always has its fade pending. */
  predicate FadeConsistent(t: Target) {
    && (t.fadePending ==> t.status != Live && !t.ring.ticking)
    && (t.status == Fading ==> t.fadePending)
  }

  lemma {:induction false} CountLiveSprites(ts: seq<Target>, k: nat)
    ensures Count(LiveSprites(ts), Sprite(k)) == if k < |ts| && ts[k].status == Live then 1 else 0
    decreases |ts|
  {
    if |ts| > 0 {
      var p := ts[..|ts| - 1];
      CountLiveSprites(p, k);
      if k < |p| {
        assert ts[k] == p[k];
      }
    }
  }

  lemma {:induction false} LiveSpritesSameLiveness(ts: seq<Target>, ts': seq<Target>)
    requires |ts'| == |ts|
    requires forall i :: 0 <= i < |ts| ==> (ts'[i].status == Live <==> ts[i].status == Live)
    ensures LiveSprites(ts) == LiveSprites(ts')
    decreases |ts|
  {
    if |ts| > 0 {
      LiveSpritesSameLiveness(ts[..|ts| - 1], ts'[..|ts| - 1]);
    }
  }

  /** Filtering sprite k out of the live list is the live list of a world
      where target k is no longer live and every other target is as live
      as before. */
  lemma {:induction false} LiveSpritesWithout(ts: seq<Target>, ts': seq<Target>, k: nat)
    requires |ts'| == |ts| && k < |ts| && ts'[k].status != Live
    requires forall i :: 0 <= i < |ts| && i != k ==> (ts'[i].status == Live <==> ts[i].status == Live)
    ensures Without(LiveSprites(ts), Sprite(k)) == LiveSprites(ts')
    decreases |ts|
  {
    var n := |ts| - 1;
    var p, p' := ts[..n], ts'[..n];
    var tail := if ts[n].status == Live then [Sprite(n)] else [];
    assert LiveSprites(ts) == LiveSprites(p) + tail;
    WithoutConcat(LiveSprites(p), tail, Sprite(k));
    assert forall i :: 0 <= i < n ==> p[i] == ts[i] && p'[i] == ts'[i];
    if k == n {
      LastWithout(p, p', k);
      assert Without(tail, Sprite(k)) == [];
    } else {
      LiveSpritesWithout(p, p', k);
      assert Without(tail, Sprite(k)) == tail;
    }
  }

  /** The base of `LiveSpritesWithout`: target k is the last one. */
  lemma LastWithout(p: seq<Target>, p': seq<Target>, k: nat)
    requires |p'| == |p| == k
    requires forall i :: 0 <= i < k ==> (p'[i].status == Live <==> p[i].status == Live)
    ensures Without(LiveSprites(p), Sprite(k)) == LiveSprites(p')
  {
    CountLiveSprites(p, k);
    WithoutAbsent(LiveSprites(p), Sprite(k));
    LiveSpritesSameLiveness(p, p');
  }

  lemma SpawnKeepsValid(w: World, texture: string, freePosition: Option<Position>)
    requires Valid(w)
    ensures Valid(SpawnTarget(w, texture, freePosition))
  {
    if freePosition.Some? {
      var r := SpawnTarget(w, texture, freePosition);
      assert r.targets[..|w.targets|] == w.targets;
    }
  }

  /** Unlisting target k while it stops being live keeps the invariant. */
  lemma UnlistKeepsValid(w: World, scene': Scene, ts': seq<Target>, k: nat)
    requires Valid(w) && k < |w.targets| && |ts'| == |w.targets|
    requires ts'[k].status != Live && FadeConsistent(ts'[k])
    requires forall i :: 0 <= i < |w.targets| && i != k ==> ts'[i] == w.targets[i]
    requires scene'.data.activeTargets == Without(w.scene.data.activeTargets, Sprite(k))
    requires scene'.data.activeTargetsTimer == w.scene.data.activeTargetsTimer
    ensures Valid(World(scene', ts'))
  {
    LiveSpritesWithout(w.targets, ts', k);
    ValidParts(World(scene', ts'));
  }

  /** A step that changes no target's liveness, keeps every target's fade
      bookkeeping consistent and touches neither list keeps the invariant. */
  lemma SameListsKeepValid(w: World, scene': Scene, ts': seq<Target>)
    requires Valid(w) && |ts'| == |w.targets|
    requires forall i :: 0 <= i < |w.targets| ==> (ts'[i].status == Live <==> w.targets[i].status == Live)
    requires forall i :: 0 <= i < |w.targets| ==> FadeConsistent(w.targets[i]) ==> FadeConsistent(ts'[i])
    requires scene'.data == w.scene.data
    ensures Valid(World(scene', ts'))
  {
    LiveSpritesSameLiveness(w.targets, ts');
    ValidParts(World(scene', ts'));
  }

  lemma PointerDownKeepsValid(w: World, k: nat)
    requires Valid(w) && k < |w.targets| && w.targets[k].status != Destroyed
    ensures Valid(PointerDown(w, k).world)
  {
    var r := PointerDown(w, k).world;
    if PointerDown(w, k).Scored? {
      CountLiveSprites(w.targets, k);
      UnlistKeepsValid(w, r.scene, r.targets, k);
    } else {
      assert r == w;
    }
  }

  lemma TimeoutKeepsValid(w: World, k: nat)
    requires Valid(w) && k < |w.targets| && w.targets[k].timeoutPending
    ensures Valid(Timeout(w, k))
  {
    var r := Timeout(w, k);
    if w.targets[k].status == Destroyed {
      SameListsKeepValid(w, r.scene, r.targets);
    } else {
      CountLiveSprites(w.targets, k);
      UnlistKeepsValid(w, r.scene, r.targets, k);
    }
  }

  /** `Valid`, conjunct by conjunct. */
  lemma ValidParts(w: World)
    requires w.scene.data.activeTargets == LiveSprites(w.targets)
    requires w.scene.data.activeTargetsTimer == AllOverlays(|w.targets|)
    requires forall i :: 0 <= i < |w.targets| ==> FadeConsistent(w.targets[i])
    ensures Valid(w)
  {
  }

  /** Every step keeps the bookkeeping invariant. */
  lemma StepKeepsValid(w: World, e: Event)
    requires Valid(w)
    ensures Valid(Step(w, e))
  {
    match e
    case SpawnAttempt(id, position) =>
      SpawnKeepsValid(w, TextureFor(id), position);
    case TickFired(k) =>
      if k < |w.targets| {
        TickKeepsValid(w, k);
      }
    case PointerPressed(k) =>
      if k < |w.targets| && w.targets[k].status != Destroyed {
        ClickKeepsValid(w, k);
      }
    case TimeoutFired(k) =>
      if k < |w.targets| && w.targets[k].timeoutPending {
        TimeoutKeepsValid(w, k);
      }
    case FadeFinished(k) =>
      if k < |w.targets| && w.targets[k].fadePending {
        FadeKeepsValid(w, k);
      }
    case CorrectIdChosen(id) =>
      SameListsKeepValid(w, Step(w, e).scene, w.targets);
  }

  lemma TickKeepsValid(w: World, k: nat)
    requires Valid(w) && k < |w.targets|
    ensures Valid(TickTarget(w, k))
  {
    SameListsKeepValid(w, w.scene, TickTarget(w, k).targets);
  }

  lemma FadeKeepsValid(w: World, k: nat)
    requires Valid(w) && k < |w.targets| && w.targets[k].fadePending
    ensures Valid(FadeComplete(w, k))
  {
    SameListsKeepValid(w, w.scene, FadeComplete(w, k).targets);
  }

  lemma ClickKeepsValid(w: World, k: nat)
    requires Valid(w) && k < |w.targets| && w.targets[k].status != Destroyed
    ensures Valid(Step(w, PointerPressed(k)))
  {
    PointerDownKeepsValid(w, k);
    ValidParts(Step(w, PointerPressed(k)));
  }

  /** Every trace of events from the start keeps the invariant. */
  lemma {:induction false} RunKeepsValid(w: World, events: seq<Event>)
    requires Valid(w)
    ensures Valid(Run(w, events))
    decreases |events|
  {
    if |events| > 0 {
      StepKeepsValid(w, events[0]);
      RunKeepsValid(Step(w, events[0]), events[1..]);
    }
  }

  lemma StartIsValid(isGameOver: bool, score: int, scoreText: string, correctTargetID: string)
    ensures Valid(Start(isGameOver, score, scoreText, correctTargetID))
  {
  }

  /** In any reachable world a target is listed in "activeTargets" exactly
      when it is live, and then exactly once: a scored or timed-out target
      is gone from the list. */
  lemma ListedIffLive(w: World, k: nat)
    requires Valid(w)
    ensures Sprite(k) in w.scene.data.activeTargets <==> k < |w.targets| && w.targets[k].status == Live
    ensures Count(w.scene.data.activeTargets, Sprite(k)) <= 1
  {
    CountLiveSprites(w.targets, k);
  }

  /** The ring list is never shrunk: every step keeps what it listed, in
      place and in order. */
  lemma RingListNeverShrinks(w: World, e: Event)
    requires Valid(w)
    ensures var after := Step(w, e).scene.data.activeTargetsTimer;
      && |w.scene.data.activeTargetsTimer| <= |after|
      && after[..|w.scene.data.activeTargetsTimer|] == w.scene.data.activeTargetsTimer
  {
    StepKeepsValid(w, e);
    AllOverlaysPrefix(|w.targets|, |Step(w, e).targets|);
  }

  lemma {:induction false} AllOverlaysPrefix(m: nat, n: nat)
    requires m <= n
    ensures AllOverlays(n)[..m] == AllOverlays(m)
    decreases n
  {
    if m < n {
      AllOverlaysPrefix(m, n - 1);
      assert AllOverlays(n)[..n - 1] == AllOverlays(n - 1);
    }
  }

  /** The game-over flag is never cleared by these callbacks, so once it is
      set no later trace spawns another target. */
  lemma {:induction false} NoSpawnAfterGameOver(w: World, events: seq<Event>)
    requires w.scene.isGameOver
    ensures Run(w, events).scene.isGameOver
    ensures |Run(w, events).targets| == |w.targets|
    decreases |events|
  {
    if |events| > 0 {
      var w' := Step(w, events[0]);
      assert w'.scene.isGameOver && |w'.targets| == |w.targets|;
      NoSpawnAfterGameOver(w', events[1..]);
    }
  }

  /** The score moves only on a correct click, and then by exactly one. */
  lemma ScoreStep(w: World, e: Event)
    ensures var s := Step(w, e).scene.score;
      s == w.scene.score || s == w.scene.score + 1
    ensures Step(w, e).scene.score == w.scene.score + 1 <==>
      && e.PointerPressed? && e.k < |w.targets| && w.targets[e.k].status != Destroyed
      && IsCurrentlyCorrect(w.targets[e.k].texture, w.scene.correctTargetID)
  {
    if e.PointerPressed? && e.k < |w.targets| && w.targets[e.k].status != Destroyed {
      var c := PointerDown(w, e.k);
      if c.GameOverCalled? {
        assert Step(w, e).scene.score == w.scene.score;
      }
    }
  }

  /** A scheduled tick event is removed only by a correct click on its
      target. A timeout, a wrong click or the end of a fade leaves it
      running. */
  lemma OnlyHitStopsTick(w: World, e: Event, j: nat)
    requires j < |w.targets| && w.targets[j].ring.ticking
    ensures !Step(w, e).targets[j].ring.ticking <==>
      && e == PointerPressed(j) && w.targets[j].status != Destroyed
      && IsCurrentlyCorrect(w.targets[j].texture, w.scene.correctTargetID)
  {
    if e.SpawnAttempt? && !w.scene.isGameOver && e.freePosition.Some? {
      assert Step(w, e).targets[..|w.targets|] == w.targets;
      assert Step(w, e).targets[j] == w.targets[j];
    }
  }

  /** The hit test reads the correct id at the moment of the click, so the
      id chosen last decides whether a click scores. */
  lemma ClickReadsCurrentId(w: World, k: nat, id: string)
    requires k < |w.targets| && w.targets[k].status != Destroyed
    ensures var w' := Step(Step(w, CorrectIdChosen(id)), PointerPressed(k));
      w'.scene.score == w.scene.score + 1 <==> IsCurrentlyCorrect(w.targets[k].texture, id)
  {
    ScoreStep(Step(w, CorrectIdChosen(id)), PointerPressed(k));
  }

  function Repeat(e: Event, n: nat): (es: seq<Event>)
    ensures |es| == n
    ensures forall i :: 0 <= i < n ==> es[i] == e
    decreases n
  {
    if n == 0 then [] else [e] + Repeat(e, n - 1)
  }

  lemma {:induction false} TicksCommute(r: Ring, n: nat)
    ensures Ticks(Tick(r), n) == Tick(Ticks(r, n))
    decreases n
  {
    if n > 0 {
      TicksCommute(r, n - 1);
    }
  }

  /** n firings of target k's tick event advance its ring exactly as n
      countdown ticks do and leave everything else alone. */
  lemma {:induction false} TickEventsDriveRing(w: World, k: nat, n: nat)
    requires k < |w.targets|
    ensures var w' := Run(w, Repeat(TickFired(k), n));
      && w'.scene == w.scene && |w'.targets| == |w.targets|
      && w'.targets[k].ring == Ticks(w.targets[k].ring, n)
      && w'.targets[k].(ring := w.targets[k].ring) == w.targets[k]
      && forall j :: 0 <= j < |w.targets| && j != k ==> w'.targets[j] == w.targets[j]
    decreases n
  {
    if n > 0 {
      var w1 := Step(w, TickFired(k));
      assert Repeat(TickFired(k), n)[1..] == Repeat(TickFired(k), n - 1);
      TickEventsDriveRing(w1, k, n - 1);
      TicksCommute(w.targets[k].ring, n - 1);
    }
  }

  /** On a freshly spawned target, the n-th tick has counted 30 n
      milliseconds, and the ring is gone exactly from the 100th tick on. */
  lemma SpawnedTargetTicks(w: World, k: nat, n: nat)
    requires k < |w.targets| && w.targets[k].ring == FreshRing
    ensures |Run(w, Repeat(TickFired(k), n)).targets| == |w.targets|
    ensures var ring := Run(w, Repeat(TickFired(k), n)).targets[k].ring;
      ring.elapsed == TickDelay * n && (ring.destroyed <==> n >= 100)
  {
    TickEventsDriveRing(w, k, n);
    TicksFromSpawn(n);
  }

  /** The two lists are not kept parallel: spawning one correct target and
      clicking it leaves "activeTargets" empty while "activeTargetsTimer"
      still lists its ring. */
  lemma ListsDriftApart()
    ensures var w := Run(Start(false, 0, "Score: 0", "1"),
                         [SpawnAttempt("1", Some(Position(0, 0))), PointerPressed(0)]);
      && w.scene.data.activeTargets == []
      && w.scene.data.activeTargetsTimer == [Overlay(0)]
  {
    var w0 := Start(false, 0, "Score: 0", "1");
    var w1 := Step(w0, SpawnAttempt("1", Some(Position(0, 0))));
    assert w1.scene.data.activeTargets == [Sprite(0)];
    assert Count([Sprite(0)], Sprite(0)) == 1;
    var w2 := Step(w1, PointerPressed(0));
    assert w2.scene.data.activeTargets == Without([Sprite(0)], Sprite(0)) == [];
    assert Run(w0, [SpawnAttempt("1", Some(Position(0, 0))), PointerPressed(0)]) == w2 by {
      assert [SpawnAttempt("1", Some(Position(0, 0))), PointerPressed(0)][1..] == [PointerPressed(0)];
      assert Run(w1, [PointerPressed(0)]) == Run(w2, []);
    }
  }

  /** A scored target stays clickable while it fades out, and a second
      click on it scores again. */
  lemma ClickDuringFadeScoresAgain()
    ensures var w := Run(Start(false, 0, "Score: 0", "1"),
                         [SpawnAttempt("1", Some(Position(0, 0))), PointerPressed(0), PointerPressed(0)]);
      && w.scene.score == 2
      && ReadScore(w.scene.scoreText) == Some(2)
  {
    var w0 := Start(false, 0, "Score: 0", "1");
    var w1 := Step(w0, SpawnAttempt("1", Some(Position(0, 0))));
    var w2 := Step(w1, PointerPressed(0));
    assert w2.targets[0].status == Fading;
    var w3 := Step(w2, PointerPressed(0));
    assert w3.scene.score == 2;
    var es := [SpawnAttempt("1", Some(Position(0, 0))), PointerPressed(0), PointerPressed(0)];
    assert Run(w0, es) == w3 by {
      assert es[1..] == [PointerPressed(0), PointerPressed(0)];
      assert es[1..][1..] == [PointerPressed(0)];
      assert Run(w2, [PointerPressed(0)]) == Run(w3, []);
    }
  }
}
