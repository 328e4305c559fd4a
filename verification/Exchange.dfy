/**
 The exchange between the vision and the motion process: the four transfers of core/VisionCore.cpp and
 core/MotionCore.cpp, each atomic under the motion-vision lock, in any interleaving with whatever the two
 processes do to their own blocks in between.
 */
module Exchange {

  /** The value of a field, or of a group of fields, whose contents do not matter to the exchange. */
  type Value = int

  datatype KickRequest = KickRequest(kickRunning: bool, finishedWithStep: bool, kickType: Value,
      visionKickRunning: bool, rest: Value)

  /** `Kick::NO_KICK` */
  const NO_KICK: Value := 0

  datatype WalkControl = ControlSet | ControlDone | OtherControl(status: Value)

  datatype WalkRequest = WalkRequest(
    targetPoint: Value, kickWithLeft: bool, kickHeading: Value, motion: Value,
    walkType: Value, walkControlStatus: WalkControl,
    newCommand: bool, startCommand: bool, finishedStanding: bool, slowStand: bool, isPenalised: bool,
    performKick: bool, setKickStepParams: bool, walkDecidesFinishedWithTarget: bool,
    odometryFwdOffset: Value, odometrySideOffset: Value, odometryTurnOffset: Value,
    rest: Value)

  /** A parameter block with its `send_params_` flag. */
  datatype Param = Param(send: bool, params: Value)

  /** The blocks of one side, or the shared ones. */
  datatype Blocks = Blocks(kick: KickRequest, walk: WalkRequest, kickParams: Param, walkParam: Param,
      alWalkParam: Param)

  datatype World = World(vision: Blocks, sync: Blocks, motion: Blocks)

  datatype Event =
    | VisionWork(blocks: Blocks)                            // vision rewrites its own blocks
    | MotionWork(kick: KickRequest, walk: WalkRequest)      // motion rewrites its own requests
    | VisionPublish(penalised: bool)
    | VisionReceive
    | MotionPublish
    | MotionReceive

  // ----- what each transfer does

  function ShareKick(sync: KickRequest, vision: KickRequest): KickRequest {
    vision.(kickRunning := sync.kickRunning, finishedWithStep := sync.finishedWithStep)
  }

  function ShareWalk(sync: WalkRequest, vision: WalkRequest): WalkRequest {
    var kept := if sync.finishedStanding && !vision.startCommand then vision.(finishedStanding := true) else vision;
    kept.(startCommand := false)
  }

  function Send(sync: Param, vision: Param): Param {
    if vision.send then vision else sync
  }

  function AfterVisionPublish(w: World, penalised: bool): World {
    var walk := w.vision.walk.(isPenalised := penalised);
    w.(vision := w.vision.(walk := walk.(startCommand := false)),
       sync := Blocks(ShareKick(w.sync.kick, w.vision.kick), ShareWalk(w.sync.walk, walk),
                      Send(w.sync.kickParams, w.vision.kickParams), Send(w.sync.walkParam, w.vision.walkParam),
                      Send(w.sync.alWalkParam, w.vision.alWalkParam)))
  }

  function AfterVisionReceive(w: World): World {
    var v := w.vision;
    w.(vision := Blocks(
         v.kick.(kickRunning := w.sync.kick.kickRunning, finishedWithStep := w.sync.kick.finishedWithStep,
                 kickType := NO_KICK, visionKickRunning := false),
         w.sync.walk.(odometryFwdOffset := v.walk.odometryFwdOffset, odometrySideOffset := v.walk.odometrySideOffset,
                      odometryTurnOffset := v.walk.odometryTurnOffset, walkType := v.walk.walkType,
                      newCommand := false, performKick := false, setKickStepParams := false,
                      walkDecidesFinishedWithTarget := false),
         v.kickParams.(send := false), v.walkParam.(send := false), v.alWalkParam.(send := false)))
  }

  function OverwriteWalk(sync: WalkRequest, motion: WalkRequest): WalkRequest {
    motion.(kickWithLeft := sync.kickWithLeft, targetPoint := sync.targetPoint, kickHeading := sync.kickHeading,
            motion := sync.motion, newCommand := false, slowStand := false, setKickStepParams := false)
  }

  function AfterMotionPublish(w: World): World {
    w.(sync := w.sync.(
         kick := w.sync.kick.(kickRunning := w.motion.kick.kickRunning,
                              finishedWithStep := w.motion.kick.finishedWithStep),
         walk := OverwriteWalk(w.sync.walk, w.motion.walk)))
  }

  function Take(sync: Param, motion: Param): Param {
    if sync.send then sync else motion
  }

  /** The shared walk request, except that a control motion has done is not set again. */
  function ReceivedWalk(sync: WalkRequest, motion: WalkRequest): WalkRequest {
    if motion.walkControlStatus == ControlDone && sync.walkControlStatus == ControlSet then
      sync.(walkControlStatus := ControlDone)
    else
      sync
  }

  function AfterMotionReceive(w: World): World {
    w.(motion := Blocks(w.sync.kick, ReceivedWalk(w.sync.walk, w.motion.walk),
                        Take(w.sync.kickParams, w.motion.kickParams), Take(w.sync.walkParam, w.motion.walkParam),
                        Take(w.sync.alWalkParam, w.motion.alWalkParam)),
       sync := w.sync.(kickParams := w.sync.kickParams.(send := false), walkParam := w.sync.walkParam.(send := false),
                       alWalkParam := w.sync.alWalkParam.(send := false)))
  }

  function After(w: World, e: Event): World {
    match e
    case VisionWork(blocks) => w.(vision := blocks)
    case MotionWork(kick, walk) => w.(motion := w.motion.(kick := kick, walk := walk))
    case VisionPublish(penalised) => AfterVisionPublish(w, penalised)
    case VisionReceive => AfterVisionReceive(w)
    case MotionPublish => AfterMotionPublish(w)
    case MotionReceive => AfterMotionReceive(w)
  }

  function Run(w: World, events: seq<Event>): World {
    if |events| == 0 then w else After(Run(w, events[..|events| - 1]), events[|events| - 1])
  }

  // ----- the transfers, statement by statement

  class Memory {
    var vision: Blocks
    var sync: Blocks
    var motion: Blocks

    ghost function Contents(): World
      reads this
    {
      World(vision, sync, motion)
    }

    constructor (w: World)
      ensures Contents() == w
    {
      vision, sync, motion := w.vision, w.sync, w.motion;
    }

    /** `VisionCore::publishData` */
    method VisionPublishData(penalised: bool)
      modifies this
      ensures Contents() == AfterVisionPublish(old(Contents()), penalised)
    {
      vision := vision.(walk := vision.walk.(isPenalised := penalised));
      PublishKickRequest();
      PublishWalkRequest();
      SendParams();
    }

    method PublishKickRequest()
      modifies `sync
      ensures sync == old(sync).(kick := ShareKick(old(sync).kick, vision.kick))
    {
      var tempKickRunning := sync.kick.kickRunning;
      var tempFinishedWithStep := sync.kick.finishedWithStep;
      sync := sync.(kick := vision.kick);
      sync := sync.(kick := sync.kick.(kickRunning := tempKickRunning));
      sync := sync.(kick := sync.kick.(finishedWithStep := tempFinishedWithStep));
    }

    method PublishWalkRequest()
      modifies `sync, `vision
      ensures sync == old(sync).(walk := ShareWalk(old(sync).walk, old(vision).walk))
      ensures vision == old(vision).(walk := old(vision).walk.(startCommand := false))
    {
      var tempFinishedStanding := sync.walk.finishedStanding;
      sync := sync.(walk := vision.walk);
      if tempFinishedStanding && !vision.walk.startCommand {
        sync := sync.(walk := sync.walk.(finishedStanding := tempFinishedStanding));
      }
      vision := vision.(walk := vision.walk.(startCommand := false));
      sync := sync.(walk := sync.walk.(startCommand := vision.walk.startCommand));
    }

    method SendParams()
      modifies `sync
      ensures sync == old(sync).(kickParams := Send(old(sync).kickParams, vision.kickParams),
                                 walkParam := Send(old(sync).walkParam, vision.walkParam),
                                 alWalkParam := Send(old(sync).alWalkParam, vision.alWalkParam))
    {
      if vision.kickParams.send {
        sync := sync.(kickParams := vision.kickParams);
      }
      if vision.walkParam.send {
        sync := sync.(walkParam := vision.walkParam);
      }
      if vision.alWalkParam.send {
        sync := sync.(alWalkParam := vision.alWalkParam);
      }
    }

    /** `VisionCore::receiveData` */
    method VisionReceiveData()
      modifies this
      ensures Contents() == AfterVisionReceive(old(Contents()))
    {
      vision := vision.(kick := vision.kick.(kickRunning := sync.kick.kickRunning));
      vision := vision.(kick := vision.kick.(finishedWithStep := sync.kick.finishedWithStep));
      vision := vision.(kick := vision.kick.(kickType := NO_KICK));
      vision := vision.(kick := vision.kick.(visionKickRunning := false));
      var fwdOffset := vision.walk.odometryFwdOffset;
      var sideOffset := vision.walk.odometrySideOffset;
      var turnOffset := vision.walk.odometryTurnOffset;
      var walkType := vision.walk.walkType;
      vision := vision.(walk := sync.walk);
      vision := vision.(walk := vision.walk.(odometryFwdOffset := fwdOffset));
      vision := vision.(walk := vision.walk.(odometrySideOffset := sideOffset));
      vision := vision.(walk := vision.walk.(odometryTurnOffset := turnOffset));
      vision := vision.(walk := vision.walk.(walkType := walkType));
      vision := vision.(walk := vision.walk.(newCommand := false));
      vision := vision.(walk := vision.walk.(performKick := false));
      vision := vision.(walk := vision.walk.(setKickStepParams := false));
      vision := vision.(walk := vision.walk.(walkDecidesFinishedWithTarget := false));
      vision := vision.(walkParam := vision.walkParam.(send := false));
      vision := vision.(alWalkParam := vision.alWalkParam.(send := false));
      vision := vision.(kickParams := vision.kickParams.(send := false));
    }

    /** `MotionCore::publishData` */
    method MotionPublishData()
      modifies this
      ensures Contents() == AfterMotionPublish(old(Contents()))
    {
      sync := sync.(kick := sync.kick.(kickRunning := motion.kick.kickRunning));
      sync := sync.(kick := sync.kick.(finishedWithStep := motion.kick.finishedWithStep));
      var tempWalkTarget := sync.walk.targetPoint;
      var tempKickWithLeft := sync.walk.kickWithLeft;
      var tempHeading := sync.walk.kickHeading;
      var tempMotion := sync.walk.motion;
      sync := sync.(walk := motion.walk);
      sync := sync.(walk := sync.walk.(kickWithLeft := tempKickWithLeft));
      sync := sync.(walk := sync.walk.(targetPoint := tempWalkTarget));
      sync := sync.(walk := sync.walk.(kickHeading := tempHeading));
      sync := sync.(walk := sync.walk.(motion := tempMotion));
      sync := sync.(walk := sync.walk.(newCommand := false));
      sync := sync.(walk := sync.walk.(slowStand := false));
      sync := sync.(walk := sync.walk.(setKickStepParams := false));
    }

    /** `MotionCore::receiveData`; `typechange` says whether the walk engine is set up anew. */
    method MotionReceiveData() returns (typechange: bool)
      modifies this
      ensures Contents() == AfterMotionReceive(old(Contents()))
      ensures typechange <==> old(motion.walk.walkType) != motion.walk.walkType
    {
      typechange := motion.walk.walkType != sync.walk.walkType;
      motion := motion.(kick := sync.kick);
      ReceiveWalkRequest();
      TakeParams();
    }

    method ReceiveWalkRequest()
      modifies `motion
      ensures motion == old(motion).(walk := ReceivedWalk(sync.walk, old(motion).walk))
    {
      var tempStatus := motion.walk.walkControlStatus;
      motion := motion.(walk := sync.walk);
      if tempStatus == ControlDone && sync.walk.walkControlStatus == ControlSet {
        motion := motion.(walk := motion.walk.(walkControlStatus := tempStatus));
      }
    }

    method TakeParams()
      modifies `sync, `motion
      ensures motion == old(motion).(kickParams := Take(old(sync).kickParams, old(motion).kickParams),
                                     walkParam := Take(old(sync).walkParam, old(motion).walkParam),
                                     alWalkParam := Take(old(sync).alWalkParam, old(motion).alWalkParam))
      ensures sync == old(sync).(kickParams := old(sync).kickParams.(send := false),
                                 walkParam := old(sync).walkParam.(send := false),
                                 alWalkParam := old(sync).alWalkParam.(send := false))
    {
      if sync.kickParams.send {
        motion := motion.(kickParams := sync.kickParams);
        sync := sync.(kickParams := sync.kickParams.(send := false));
      }
      if sync.walkParam.send {
        motion := motion.(walkParam := sync.walkParam);
        sync := sync.(walkParam := sync.walkParam.(send := false));
      }
      if sync.alWalkParam.send {
        motion := motion.(alWalkParam := sync.alWalkParam);
        sync := sync.(alWalkParam := sync.alWalkParam.(send := false));
      }
    }
  }

  // ----- who owns which field

  /** The last kick request each side put in shared memory; before the first, the initial contents. */
  function LastFromVision(w: World, events: seq<Event>): KickRequest {
    if |events| == 0 then
      w.sync.kick
    else
      var before := events[..|events| - 1];
      if events[|events| - 1].VisionPublish? then Run(w, before).vision.kick else LastFromVision(w, before)
  }

  function LastFromMotion(w: World, events: seq<Event>): KickRequest {
    if |events| == 0 then
      w.sync.kick
    else
      var before := events[..|events| - 1];
      if events[|events| - 1].MotionPublish? then Run(w, before).motion.kick else LastFromMotion(w, before)
  }

  /** The walk request that vision publishes, with the penalty it has just noted. */
  function WalkOfVision(w: World, penalised: bool): WalkRequest {
    w.vision.walk.(isPenalised := penalised)
  }

  function LastWalkFromVision(w: World, events: seq<Event>): WalkRequest {
    if |events| == 0 then
      w.sync.walk
    else
      var before := events[..|events| - 1];
      match events[|events| - 1]
      case VisionPublish(penalised) => WalkOfVision(Run(w, before), penalised)
      case _ => LastWalkFromVision(w, before)
  }

  /** In every run, each field of the shared kick request is what its owner last published. */
  lemma {:induction false} KickOwnership(w: World, events: seq<Event>)
    ensures Run(w, events).sync.kick ==
            LastFromVision(w, events).(kickRunning := LastFromMotion(w, events).kickRunning,
                                       finishedWithStep := LastFromMotion(w, events).finishedWithStep)
  {
    if |events| > 0 {
      KickOwnership(w, events[..|events| - 1]);
    }
  }

  /** In every run, these four fields of the shared walk request are what vision last published. */
  lemma {:induction false} WalkOwnership(w: World, events: seq<Event>)
    ensures
      var shared, last := Run(w, events).sync.walk, LastWalkFromVision(w, events);
      && shared.targetPoint == last.targetPoint && shared.kickWithLeft == last.kickWithLeft
      && shared.kickHeading == last.kickHeading && shared.motion == last.motion
  {
    if |events| > 0 {
      WalkOwnership(w, events[..|events| - 1]);
    }
  }

  /** What motion sees right after it receives: vision's request, with motion's own progress flags. */
  lemma MotionSeesOwnProgress(w: World, events: seq<Event>)
    ensures Run(w, events + [MotionReceive]).motion.kick ==
            LastFromVision(w, events).(kickRunning := LastFromMotion(w, events).kickRunning,
                                       finishedWithStep := LastFromMotion(w, events).finishedWithStep)
  {
    assert (events + [MotionReceive])[..|events|] == events;
    KickOwnership(w, events);
  }

  // ----- walk fields without owner

  /** The last walk request motion put in shared memory; before the first, the initial contents. */
  function LastWalkFromMotion(w: World, events: seq<Event>): WalkRequest {
    if |events| == 0 then
      w.sync.walk
    else
      var before := events[..|events| - 1];
      if events[|events| - 1].MotionPublish? then Run(w, before).motion.walk else LastWalkFromMotion(w, before)
  }

  /** Motion has published since vision last did, or since the start if vision never did. */
  predicate MotionSpokeLast(events: seq<Event>) {
    |events| > 0 && !events[|events| - 1].VisionPublish?
    && (events[|events| - 1].MotionPublish? || MotionSpokeLast(events[..|events| - 1]))
  }

  lemma {:induction false} MotionSpokeLastMeans(events: seq<Event>)
    ensures MotionSpokeLast(events) <==>
            exists i | 0 <= i < |events| ::
              events[i].MotionPublish? && forall k | i < k < |events| :: !events[k].VisionPublish?
  {
    if |events| > 0 {
      var last := |events| - 1;
      var before := events[..last];
      MotionSpokeLastMeans(before);
      if !events[last].VisionPublish? && !events[last].MotionPublish? {
        if MotionSpokeLast(before) {
          var i :| 0 <= i < last && before[i].MotionPublish? && forall k | i < k < last :: !before[k].VisionPublish?;
          assert events[i].MotionPublish? && forall k | i < k < |events| :: !events[k].VisionPublish?;
        }
        if i :| 0 <= i < |events| && events[i].MotionPublish?
                && forall k | i < k < |events| :: !events[k].VisionPublish? {
          assert before[i].MotionPublish? && forall k | i < k < last :: !before[k].VisionPublish?;
        }
      }
    }
  }

  /** The walk request that either side published last. */
  function LastWalk(w: World, events: seq<Event>): WalkRequest {
    if MotionSpokeLast(events) then LastWalkFromMotion(w, events) else LastWalkFromVision(w, events)
  }

  /** The fields that each side overwrites with its own and neither resets. */
  datatype WalkField =
    | Rest | WalkType | PerformKick | DecidesFinishedWithTarget | IsPenalised
    | OdometryFwdOffset | OdometrySideOffset | OdometryTurnOffset

  datatype FieldValue = Number(value: Value) | Flag(on: bool)

  function FieldOf(r: WalkRequest, f: WalkField): FieldValue {
    match f
    case Rest => Number(r.rest)
    case WalkType => Number(r.walkType)
    case PerformKick => Flag(r.performKick)
    case DecidesFinishedWithTarget => Flag(r.walkDecidesFinishedWithTarget)
    case IsPenalised => Flag(r.isPenalised)
    case OdometryFwdOffset => Number(r.odometryFwdOffset)
    case OdometrySideOffset => Number(r.odometrySideOffset)
    case OdometryTurnOffset => Number(r.odometryTurnOffset)
  }

  /** What a publication leaves in shared memory: the flags that motion lowers are off if motion published it. */
  ghost predicate SharedFrom(shared: WalkRequest, published: WalkRequest, byMotion: bool) {
    && (forall f :: FieldOf(shared, f) == FieldOf(published, f))
    && shared.walkControlStatus == published.walkControlStatus
    && shared.newCommand == (!byMotion && published.newCommand)
    && shared.slowStand == (!byMotion && published.slowStand)
    && shared.setKickStepParams == (!byMotion && published.setKickStepParams)
  }

  lemma VisionShares(sync: WalkRequest, walk: WalkRequest)
    ensures SharedFrom(ShareWalk(sync, walk), walk, false)
  {
  }

  lemma MotionShares(sync: WalkRequest, walk: WalkRequest)
    ensures SharedFrom(OverwriteWalk(sync, walk), walk, true)
  {
  }

  lemma WalkAfter(w: World, e: Event)
    ensures
      match e {
        case VisionPublish(penalised) => SharedFrom(After(w, e).sync.walk, WalkOfVision(w, penalised), false)
        case MotionPublish => SharedFrom(After(w, e).sync.walk, w.motion.walk, true)
        case _ => After(w, e).sync.walk == w.sync.walk
      }
  {
    hide SharedFrom, ShareWalk, OverwriteWalk;
    match e
    case VisionPublish(penalised) => VisionShares(w.sync.walk, WalkOfVision(w, penalised));
    case MotionPublish => MotionShares(w.sync.walk, w.motion.walk);
    case _ =>
  }

  /** The fields without owner are what either side published last. */
  lemma {:induction false} LastPublisherWins(w: World, events: seq<Event>)
    ensures SharedFrom(Run(w, events).sync.walk, LastWalk(w, events), MotionSpokeLast(events))
  {
    if |events| > 0 {
      hide SharedFrom, After;
      var before := events[..|events| - 1];
      LastPublisherWins(w, before);
      WalkAfter(Run(w, before), events[|events| - 1]);
    }
  }

  /** What motion holds after it has received once more. */
  function Seen(w: World, events: seq<Event>): WalkRequest {
    Run(w, events + [MotionReceive]).motion.walk
  }

  lemma SeenIsShared(w: World, events: seq<Event>)
    ensures Seen(w, events) == ReceivedWalk(Run(w, events).sync.walk, Run(w, events).motion.walk)
  {
    assert (events + [MotionReceive])[..|events|] == events;
  }

  /**
   Exactly when vision's command reaches motion: a field does if motion has not published since, or has
   published the same; a one-shot flag does if motion has not published since.
   */
  lemma CommandArrives(w: World, events: seq<Event>)
    ensures
      var seen, published, motion := Seen(w, events), LastWalkFromVision(w, events), MotionSpokeLast(events);
      && (forall f :: FieldOf(seen, f) == FieldOf(published, f)
           <==> !motion || FieldOf(LastWalkFromMotion(w, events), f) == FieldOf(published, f))
      && (seen.newCommand <==> !motion && published.newCommand)
      && (seen.slowStand <==> !motion && published.slowStand)
      && (seen.setKickStepParams <==> !motion && published.setKickStepParams)
  {
    hide Run, Seen, LastWalkFromMotion, LastWalkFromVision, MotionSpokeLast;
    SeenIsShared(w, events);
    LastPublisherWins(w, events);
    var shared, held := Run(w, events).sync.walk, Run(w, events).motion.walk;
    forall f
      ensures FieldOf(Seen(w, events), f) == FieldOf(shared, f)
    {
      ReceivedField(shared, held, f);
    }
  }

  lemma ReceivedField(shared: WalkRequest, held: WalkRequest, f: WalkField)
    ensures FieldOf(ReceivedWalk(shared, held), f) == FieldOf(shared, f)
  {
  }

  /**
   The walk control status arrives under the same condition, except that a control motion has done is not
   set again.
   */
  lemma ControlArrives(w: World, events: seq<Event>)
    ensures
      var seen, published := Seen(w, events).walkControlStatus, LastWalkFromVision(w, events).walkControlStatus;
      var held, own := Run(w, events).motion.walk.walkControlStatus, LastWalkFromMotion(w, events).walkControlStatus;
      && (!MotionSpokeLast(events) ==> (seen == published <==> !(held == ControlDone && published == ControlSet)))
      && (MotionSpokeLast(events) ==> seen == if held == ControlDone && own == ControlSet then ControlDone else own)
  {
    hide Run, Seen, LastWalkFromMotion, LastWalkFromVision, MotionSpokeLast;
    SeenIsShared(w, events);
    LastPublisherWins(w, events);
  }

  /** The four fields that vision owns always arrive. */
  lemma OwnedArrive(w: World, events: seq<Event>)
    ensures
      var seen, published := Seen(w, events), LastWalkFromVision(w, events);
      && seen.targetPoint == published.targetPoint && seen.kickWithLeft == published.kickWithLeft
      && seen.kickHeading == published.kickHeading && seen.motion == published.motion
  {
    hide Run, Seen, LastWalkFromVision, ReceivedWalk;
    SeenIsShared(w, events);
    WalkOwnership(w, events);
    ReceivedOwned(Run(w, events).sync.walk, Run(w, events).motion.walk);
  }

  lemma ReceivedOwned(shared: WalkRequest, held: WalkRequest)
    ensures ReceivedWalk(shared, held).targetPoint == shared.targetPoint
    ensures ReceivedWalk(shared, held).kickWithLeft == shared.kickWithLeft
    ensures ReceivedWalk(shared, held).kickHeading == shared.kickHeading
    ensures ReceivedWalk(shared, held).motion == shared.motion
  {
    var done := shared.(walkControlStatus := ControlDone);
    assert ReceivedWalk(shared, held) == shared || ReceivedWalk(shared, held) == done;
    hide ReceivedWalk;
    assert done.targetPoint == shared.targetPoint && done.kickWithLeft == shared.kickWithLeft;
    assert done.kickHeading == shared.kickHeading && done.motion == shared.motion;
  }

  // ----- what vision sees

  lemma RunOneMore(w: World, events: seq<Event>, e: Event)
    ensures Run(w, events + [e]) == After(Run(w, events), e)
  {
    assert (events + [e])[..|events|] == events;
  }

  /** After it receives, vision has motion's progress on the kick, and the kick request is its own but reset. */
  lemma VisionSeesProgress(w: World, events: seq<Event>)
    ensures
      var own, seen := Run(w, events).vision.kick, Run(w, events + [VisionReceive]).vision.kick;
      && seen.kickRunning == LastFromMotion(w, events).kickRunning
      && seen.finishedWithStep == LastFromMotion(w, events).finishedWithStep
      && seen.kickType == NO_KICK == 0 && !seen.visionKickRunning && seen.rest == own.rest
  {
    hide Run, LastFromMotion, LastFromVision;
    RunOneMore(w, events, VisionReceive);
    KickOwnership(w, events);
  }

  /**
   Its walk request is the one either side published last, except for the odometry offsets and the walk type,
   which it keeps, and four one-shot flags, which are down.
   */
  lemma VisionSeesWalk(w: World, events: seq<Event>)
    ensures
      var own, seen := Run(w, events).vision.walk, Run(w, events + [VisionReceive]).vision.walk;
      var last, owned, motion := LastWalk(w, events), LastWalkFromVision(w, events), MotionSpokeLast(events);
      && seen.rest == last.rest && seen.isPenalised == last.isPenalised
          && seen.walkControlStatus == last.walkControlStatus
      && seen.targetPoint == owned.targetPoint && seen.kickWithLeft == owned.kickWithLeft
      && seen.kickHeading == owned.kickHeading && seen.motion == owned.motion
      && seen.odometryFwdOffset == own.odometryFwdOffset && seen.odometrySideOffset == own.odometrySideOffset
      && seen.odometryTurnOffset == own.odometryTurnOffset && seen.walkType == own.walkType
      && !seen.newCommand && !seen.performKick && !seen.setKickStepParams && !seen.walkDecidesFinishedWithTarget
      && seen.slowStand == (!motion && last.slowStand)
      && seen.finishedStanding == Run(w, events).sync.walk.finishedStanding
      && seen.startCommand == Run(w, events).sync.walk.startCommand
  {
    hide Run, LastWalk, LastWalkFromVision, MotionSpokeLast;
    RunOneMore(w, events, VisionReceive);
    LastPublisherWins(w, events);
    WalkOwnership(w, events);
    var shared := Run(w, events).sync.walk;
    assert FieldOf(shared, Rest) == FieldOf(LastWalk(w, events), Rest);
    assert FieldOf(shared, IsPenalised) == FieldOf(LastWalk(w, events), IsPenalised);
  }

  // ----- what a transfer leaves alone

  /** A transfer writes what it transfers to, and nothing else. */
  lemma TransfersKeep(w: World)
    ensures AfterVisionReceive(w).sync == w.sync && AfterVisionReceive(w).motion == w.motion
    ensures AfterMotionPublish(w).vision == w.vision && AfterMotionPublish(w).motion == w.motion
    ensures AfterMotionReceive(w).vision == w.vision
    ensures AfterMotionReceive(w).sync.kick == w.sync.kick && AfterMotionReceive(w).sync.walk == w.sync.walk
  {
  }

  /** Publishing, vision notes the penalty and takes its start command back; the rest of its blocks stays. */
  lemma VisionAfterPublishing(w: World, penalised: bool)
    ensures
      var own := AfterVisionPublish(w, penalised).vision;
      && own.walk == w.vision.walk.(isPenalised := penalised, startCommand := false)
      && own.kick == w.vision.kick && own.kickParams == w.vision.kickParams && own.walkParam == w.vision.walkParam
      && own.alWalkParam == w.vision.alWalkParam && AfterVisionPublish(w, penalised).motion == w.motion
  {
  }

  // ----- start_command_ and finished_standing_

  /** Motion never raises the start command by itself. */
  ghost predicate MotionStartsNothing(events: seq<Event>) {
    forall k | 0 <= k < |events| && events[k].MotionWork? :: !events[k].walk.startCommand
  }

  /** Vision's start command never reaches the shared request, nor motion. */
  lemma {:induction false} StartIsNeverShared(w: World, events: seq<Event>)
    requires !w.sync.walk.startCommand && !w.motion.walk.startCommand && MotionStartsNothing(events)
    ensures !Run(w, events).sync.walk.startCommand && !Run(w, events).motion.walk.startCommand
  {
    if |events| > 0 {
      hide After;
      var before, last := events[..|events| - 1], events[|events| - 1];
      StartIsNeverShared(w, before);
      StartAfter(Run(w, before), last);
    }
  }

  lemma StartAfter(w: World, e: Event)
    requires !w.sync.walk.startCommand && !w.motion.walk.startCommand && (e.MotionWork? ==> !e.walk.startCommand)
    ensures !After(w, e).sync.walk.startCommand && !After(w, e).motion.walk.startCommand
  {
  }

  /** The publication raises the shared `finished_standing_`: its own is up. */
  predicate Raises(w: World, e: Event) {
    (e.MotionPublish? && w.motion.walk.finishedStanding) || (e.VisionPublish? && w.vision.walk.finishedStanding)
  }

  /** The publication lowers it: motion's is down, or vision's is down and vision starts a command. */
  predicate Lowers(w: World, e: Event) {
    || (e.MotionPublish? && !w.motion.walk.finishedStanding)
    || (e.VisionPublish? && !w.vision.walk.finishedStanding && w.vision.walk.startCommand)
  }

  lemma StandingAfter(w: World, e: Event)
    ensures After(w, e).sync.walk.finishedStanding <==> Raises(w, e) || (w.sync.walk.finishedStanding && !Lowers(w, e))
  {
  }

  ghost predicate LoweredAt(w: World, events: seq<Event>, k: nat) {
    k < |events| && Lowers(Run(w, events[..k]), events[k])
  }

  /** Raised by the publication before position `k`, or up from the start. */
  ghost predicate RaisedBefore(w: World, events: seq<Event>, k: nat) {
    k <= |events| && if k == 0 then w.sync.walk.finishedStanding else Raises(Run(w, events[..k - 1]), events[k - 1])
  }

  /** Raised before position `k` and not lowered since. */
  ghost predicate StandingSince(w: World, events: seq<Event>, k: nat) {
    RaisedBefore(w, events, k) && forall l: nat | k <= l < |events| :: !LoweredAt(w, events, l)
  }

  lemma PrefixStanding(w: World, events: seq<Event>, k: nat)
    requires |events| > 0 && k < |events|
    ensures
      var before, last := events[..|events| - 1], |events| - 1;
      StandingSince(w, events, k) <==> StandingSince(w, before, k) && !LoweredAt(w, events, last)
  {
    hide Run, Raises, Lowers;
    var before, last := events[..|events| - 1], |events| - 1;
    assert k > 0 ==> before[..k - 1] == events[..k - 1];
    forall l: nat | l < last
      ensures LoweredAt(w, events, l) == LoweredAt(w, before, l)
    {
      assert before[..l] == events[..l];
    }
  }

  /** In every run the shared flag is up exactly if some publication raised it and none has lowered it since. */
  lemma {:induction false} StandingExactly(w: World, events: seq<Event>)
    ensures Run(w, events).sync.walk.finishedStanding <==> exists k: nat :: StandingSince(w, events, k)
  {
    if |events| == 0 {
      assert StandingSince(w, events, 0) <==> w.sync.walk.finishedStanding;
    } else {
      hide Run, Raises, Lowers, After, StandingSince;
      var before, last := events[..|events| - 1], |events| - 1;
      StandingExactly(w, before);
      StandingAfter(Run(w, before), events[last]);
      RunLast(w, events);
      LastStanding(w, events);
      forall k: nat | k <= last
        ensures StandingSince(w, events, k) <==> StandingSince(w, before, k) && !LoweredAt(w, events, last)
      {
        PrefixStanding(w, events, k);
      }
      forall k: nat | StandingSince(w, events, k)
        ensures k <= |events|
      {
        StandingWithin(w, events, k);
      }
      forall k: nat | StandingSince(w, before, k)
        ensures k <= last
      {
        StandingWithin(w, before, k);
      }
    }
  }

  lemma RunLast(w: World, events: seq<Event>)
    requires |events| > 0
    ensures Run(w, events) == After(Run(w, events[..|events| - 1]), events[|events| - 1])
  {
  }

  lemma LastStanding(w: World, events: seq<Event>)
    requires |events| > 0
    ensures StandingSince(w, events, |events|) <==> Raises(Run(w, events[..|events| - 1]), events[|events| - 1])
  {
  }

  lemma StandingWithin(w: World, events: seq<Event>, k: nat)
    requires StandingSince(w, events, k)
    ensures k <= |events|
  {
  }

  // ----- commands that are lost

  /** The round of the motion process: it receives, works on its requests and publishes them. */
  function Round(kick: KickRequest, walk: WalkRequest, during: seq<Event>): seq<Event> {
    [MotionReceive] + during + [MotionWork(kick, walk), MotionPublish]
  }

  lemma {:induction false} MotionEnds(events: seq<Event>, after: seq<Event>)
    requires forall k | 0 <= k < |after| :: !after[k].VisionPublish?
    ensures MotionSpokeLast(events + [MotionPublish] + after)
  {
    if |after| == 0 {
      assert (events + [MotionPublish] + after)[..|events|] == events;
    } else {
      var last := |after| - 1;
      MotionEnds(events, after[..last]);
      assert (events + [MotionPublish] + after)[..|events| + 1 + last] == events + [MotionPublish] + after[..last];
    }
  }

  /** A new command is lost whenever motion's round ends between its publication and the next receipt. */
  lemma CommandLost(w: World, events: seq<Event>, after: seq<Event>)
    requires LastWalkFromVision(w, events + [MotionPublish] + after).newCommand
    requires forall k | 0 <= k < |after| :: !after[k].VisionPublish?
    ensures !Seen(w, events + [MotionPublish] + after).newCommand
  {
    MotionEnds(events, after);
    CommandArrives(w, events + [MotionPublish] + after);
  }

  /** Such a run: vision publishes during motion's round, and motion then sees neither the command nor its flag. */
  lemma LostInOneRound(w: World, penalised: bool, kick: KickRequest, walk: WalkRequest)
    requires w.vision.walk.newCommand && w.vision.walk.rest != walk.rest
    ensures
      var round := Round(kick, walk, [VisionPublish(penalised)]);
      var seen, published := Seen(w, round), LastWalkFromVision(w, round);
      && published == WalkOfVision(w, penalised) && seen.rest == walk.rest
      && seen.rest != published.rest && seen.newCommand != published.newCommand
  {
    hide After, Seen;
    var one: seq<Event> := [MotionReceive];
    var two := one + [VisionPublish(penalised)];
    var three := two + [MotionWork(kick, walk)];
    var round := three + [MotionPublish];
    assert one[..0] == [] && two[..1] == one && three[..2] == two && round[..3] == three;
    assert round == Round(kick, walk, [VisionPublish(penalised)]);
    assert Run(w, []) == w;
    WorkAndReceive(w, kick, walk);
    WorkAndReceive(Run(w, two), kick, walk);
    assert LastWalkFromVision(w, two) == WalkOfVision(Run(w, one), penalised);
    assert LastWalkFromVision(w, three) == LastWalkFromVision(w, two);
    assert LastWalkFromMotion(w, round) == Run(w, three).motion.walk;
    assert MotionSpokeLast(round);
    CommandArrives(w, round);
    LastPublisherWins(w, round);
    SeenIsShared(w, round);
    assert FieldOf(Run(w, round).sync.walk, Rest) == FieldOf(walk, Rest);
  }

  lemma WorkAndReceive(w: World, kick: KickRequest, walk: WalkRequest)
    ensures After(w, MotionReceive).vision == w.vision
    ensures After(w, MotionWork(kick, walk)).motion.walk == walk
  {
  }

  // ----- one-shot delivery of parameters

  datatype Channel = KickParams | WalkParams | ALWalkParams

  function At(b: Blocks, c: Channel): Param {
    match c
    case KickParams => b.kickParams
    case WalkParams => b.walkParam
    case ALWalkParams => b.alWalkParam
  }

  /** The parameter sets vision has published with the flag on, oldest first. */
  function Published(w: World, events: seq<Event>, c: Channel): seq<Value> {
    if |events| == 0 then
      []
    else
      var before := events[..|events| - 1];
      var sofar := Published(w, before, c);
      var v := At(Run(w, before).vision, c);
      if events[|events| - 1].VisionPublish? && v.send then sofar + [v.params] else sofar
  }

  /** Which of them motion has taken over, in order. */
  function TakenOver(w: World, events: seq<Event>, c: Channel): seq<nat> {
    if |events| == 0 then
      []
    else
      var before := events[..|events| - 1];
      var sofar := TakenOver(w, before, c);
      var n := |Published(w, before, c)|;
      if events[|events| - 1].MotionReceive? && At(Run(w, before).sync, c).send && n > 0 then sofar + [n - 1] else sofar
  }

  /**
   The state of a channel: a raised flag guards the newest set, a lowered one means motion has it; each
   set is taken at most once, and one not taken has been replaced by a newer one or is still waiting.
   */
  ghost predicate Delivered(pubs: seq<Value>, taken: seq<nat>, sync: Param, motion: Param, initial: Value) {
    && (sync.send ==> pubs != [] && sync.params == pubs[|pubs| - 1])
    && (pubs != [] && !sync.send ==>
        motion.params == pubs[|pubs| - 1] && taken != [] && taken[|taken| - 1] == |pubs| - 1)
    && (pubs == [] ==> motion.params == initial)
    && (forall k | 0 <= k < |taken| :: taken[k] < |pubs|)
    && (forall k, l | 0 <= k < l < |taken| :: taken[k] < taken[l])
    && (sync.send ==> forall k | 0 <= k < |taken| :: taken[k] < |pubs| - 1)
  }

  lemma PublishDelivers(pubs: seq<Value>, taken: seq<nat>, sync: Param, motion: Param, initial: Value, vision: Param)
    requires Delivered(pubs, taken, sync, motion, initial)
    ensures Delivered(if vision.send then pubs + [vision.params] else pubs, taken, Send(sync, vision), motion, initial)
  {
  }

  lemma ReceiveDelivers(pubs: seq<Value>, taken: seq<nat>, sync: Param, motion: Param, initial: Value)
    requires Delivered(pubs, taken, sync, motion, initial)
    ensures Delivered(pubs, if sync.send && pubs != [] then taken + [|pubs| - 1]
        else taken, sync.(send := false), Take(sync, motion), initial)
  {
  }

  /** How one event changes a channel. */
  lemma ChannelAfter(w: World, e: Event, c: Channel)
    ensures At(After(w, e).sync, c) ==
            match e {
              case VisionPublish(_) => Send(At(w.sync, c), At(w.vision, c))
              case MotionReceive => At(w.sync, c).(send := false)
              case _ => At(w.sync, c)
            }
    ensures At(After(w, e).motion, c) == if e.MotionReceive? then Take(At(w.sync, c), At(w.motion, c))
        else At(w.motion, c)
  {
  }

  ghost predicate Delivery(w: World, events: seq<Event>, c: Channel) {
    Delivered(Published(w, events, c), TakenOver(w, events, c), At(Run(w, events).sync, c),
        At(Run(w, events).motion, c), At(w.motion, c).params)
  }

  lemma {:induction false} DeliveryHolds(w: World, events: seq<Event>, c: Channel)
    requires !At(w.sync, c).send
    ensures Delivery(w, events, c)
  {
    if |events| > 0 {
      hide Delivery, Run, Published, TakenOver;
      var before, e := events[..|events| - 1], events[|events| - 1];
      DeliveryHolds(w, before, c);
      assert before + [e] == events;
      match e
      case VisionPublish(penalised) => DeliveryPublished(w, before, penalised, c);
      case MotionReceive => DeliveryReceived(w, before, c);
      case _ => DeliveryKept(w, before, e, c);
    }
  }

  lemma DeliveryPublished(w: World, before: seq<Event>, penalised: bool, c: Channel)
    requires Delivery(w, before, c)
    ensures Delivery(w, before + [VisionPublish(penalised)], c)
  {
    hide Delivered, After, At, Send, Take, Run;
    var s, e := Run(w, before), VisionPublish(penalised);
    RunOneMore(w, before, e);
    ChannelAfter(s, e, c);
    assert (before + [e])[..|before|] == before;
    PublishDelivers(Published(w, before, c), TakenOver(w, before, c), At(s.sync, c), At(s.motion, c),
        At(w.motion, c).params, At(s.vision, c));
  }

  lemma DeliveryReceived(w: World, before: seq<Event>, c: Channel)
    requires Delivery(w, before, c)
    ensures Delivery(w, before + [MotionReceive], c)
  {
    hide Delivered, After, At, Send, Take, Run;
    var s := Run(w, before);
    RunOneMore(w, before, MotionReceive);
    ChannelAfter(s, MotionReceive, c);
    assert (before + [MotionReceive])[..|before|] == before;
    ReceiveDelivers(Published(w, before, c), TakenOver(w, before, c), At(s.sync, c), At(s.motion, c),
        At(w.motion, c).params);
  }

  lemma DeliveryKept(w: World, before: seq<Event>, e: Event, c: Channel)
    requires Delivery(w, before, c) && !e.VisionPublish? && !e.MotionReceive?
    ensures Delivery(w, before + [e], c)
  {
    hide Delivered, After, At, Send, Take, Run;
    RunOneMore(w, before, e);
    ChannelAfter(Run(w, before), e, c);
    assert (before + [e])[..|before|] == before;
  }

  /** After motion receives, it has the newest published set; nothing it took before is taken again. */
  lemma OneShotDelivery(w: World, events: seq<Event>, c: Channel)
    requires !At(w.sync, c).send
    ensures
      var pubs, taken := Published(w, events, c), TakenOver(w, events + [MotionReceive], c);
      var after := Run(w, events + [MotionReceive]);
      && At(after.motion, c).params == (if pubs == [] then At(w.motion, c).params else pubs[|pubs| - 1])
      && !At(after.sync, c).send
      && (forall k, l | 0 <= k < l < |taken| :: taken[k] < taken[l])
      && (pubs != [] ==> |pubs| - 1 in taken)
  {
    var all := events + [MotionReceive];
    assert all[..|all| - 1] == events;
    DeliveryHolds(w, all, c);
    assert Published(w, all, c) == Published(w, events, c);
  }

  // ----- vision does not send a set twice

  ghost predicate FlagDown(w: World, c: Channel) {
    !At(w.vision, c).send
  }

  lemma FlagStaysDown(w: World, e: Event, c: Channel)
    requires (FlagDown(w, c) || e.VisionReceive?) && !e.VisionWork?
    ensures FlagDown(After(w, e), c) && At(After(w, e).vision, c).params == At(w.vision, c).params
  {
  }

  /** After a receipt, and until vision works again, publications add nothing to what is delivered. */
  lemma {:induction false} NotSentAgain(w: World, events: seq<Event>, quiet: seq<Event>, c: Channel)
    requires forall k | 0 <= k < |quiet| :: !quiet[k].VisionWork?
    ensures FlagDown(Run(w, events + [VisionReceive] + quiet), c)
    ensures Published(w, events + [VisionReceive] + quiet, c) == Published(w, events, c)
  {
    hide After, FlagDown, At;
    var received := events + [VisionReceive];
    if |quiet| == 0 {
      assert received + quiet == received && received[..|events|] == events;
      RunOneMore(w, events, VisionReceive);
      FlagStaysDown(Run(w, events), VisionReceive, c);
    } else {
      var last := |quiet| - 1;
      var before, e := received + quiet[..last], quiet[last];
      NotSentAgain(w, events, quiet[..last], c);
      assert received + quiet == before + [e] && (before + [e])[..|before|] == before;
      RunOneMore(w, before, e);
      FlagStaysDown(Run(w, before), e, c);
      FlagIsSend(Run(w, before), c);
    }
  }

  lemma FlagIsSend(w: World, c: Channel)
    requires FlagDown(w, c)
    ensures !At(w.vision, c).send
  {
  }
}
