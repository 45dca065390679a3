/**
  The session and audio state machine of `ov_render_base_t` with the setters of
  `ov_render_tascar_t`, and how `parse_config` drives it. The machine also records the settings the
  running session and the device audio was started with, and a log of all starts and stops.
 */
module Reconcile {
  import opened Numbers
  import opened Settings

  datatype Event = StartSession | EndSession | StartAudio | StopAudio

  datatype State = State(
    audio: AudioDevice,
    stored: Stored,
    sessionActive: bool,
    audioActive: bool,
    restartNeeded: bool,
    started: Stored,
    running: AudioDevice,
    log: seq<Event>)

  /** One call of the backend. */
  datatype Op =
    | OpStartSession
    | OpEndSession
    | OpStartAudio
    | OpStopAudio
    | OpRequireRestart
    | OpRestartIfNeeded
    | OpConfigureAudio(device: AudioDevice)
    | OpSetThisdev(dev: Device)
    | OpAddStageDevice(dev: Device)
    | OpRmStageDevice(id: byte)
    | OpSetStage(stage: map<byte, Device>)
    | OpClearStage
    | OpSetRenderSettings(rs: RenderSettings, id: byte)
    | OpSetRelayServer(host: string, port: u16, pin: u32)

  function Started(s: State): State {
    s.(sessionActive := true, restartNeeded := false, started := s.stored, log := s.log + [StartSession])
  }

  function Ended(s: State): State {
    s.(sessionActive := false, log := s.log + [EndSession])
  }

  function AudioStarted(s: State): State {
    s.(audioActive := true, running := s.audio, log := s.log + [StartAudio])
  }

  function AudioStopped(s: State): State {
    s.(audioActive := false, log := s.log + [StopAudio])
  }

  /** A running session whose stage is replaced is marked for a restart if the stage is another one. */
  function Staged(s: State, stage: map<byte, Device>): State {
    s.(stored := s.stored.(stage := stage),
       restartNeeded := s.restartNeeded || (s.sessionActive && !SameStage(s.stored.stage, stage)))
  }

  /** Two manual devices are exchanged without touching the audio backend. */
  predicate Manual(a: AudioDevice, b: AudioDevice) {
    a.devicename == "manual" && b.devicename == "manual"
  }

  function AudioConfigured(s: State, device: AudioDevice): State {
    if s.audio == device && s.audioActive then s
    else if Manual(s.audio, device) then s.(audio := device, audioActive := true)
    else
      var s1 := s.(audio := device);
      var s2 := if s.audioActive && s.sessionActive then Ended(s1.(restartNeeded := true)) else s1;
      var s3 := if s.audioActive then AudioStopped(s2) else s2;
      AudioStarted(s3)
  }

  function ThisdevSet(s: State, dev: Device): State {
    s.(stored := s.stored.(thisdevice := dev),
       restartNeeded := s.restartNeeded || !SameDevice(dev, s.stored.thisdevice))
  }

  function RenderSet(s: State, rs: RenderSettings, id: byte): State {
    if rs != s.stored.rendersettings || id != s.stored.thisstagedeviceid then
      s.(stored := s.stored.(rendersettings := rs, thisstagedeviceid := id), restartNeeded := true)
    else s
  }

  function RelaySet(s: State, host: string, port: u16, pin: u32): State {
    var restart := s.sessionActive && (s.stored.host != host || s.stored.port != port || s.stored.pin != pin);
    var s1 := s.(stored := s.stored.(host := host, port := port, pin := pin));
    if restart then Ended(s1).(restartNeeded := true) else s1
  }

  function Restarted(s: State): State {
    if s.restartNeeded then Started(if s.sessionActive then Ended(s) else s)
    else if !s.sessionActive then Started(s)
    else s
  }

  function Apply(s: State, op: Op): State {
    match op
    case OpStartSession => Started(s)
    case OpEndSession => Ended(s)
    case OpStartAudio => AudioStarted(s)
    case OpStopAudio => AudioStopped(s)
    case OpRequireRestart => s.(restartNeeded := true)
    case OpRestartIfNeeded => Restarted(s)
    case OpConfigureAudio(device) => AudioConfigured(s, device)
    case OpSetThisdev(dev) => ThisdevSet(s, dev)
    case OpAddStageDevice(dev) => Staged(s, s.stored.stage[dev.id := dev])
    case OpRmStageDevice(id) => Staged(s, s.stored.stage - {id})
    case OpSetStage(stage) => Staged(s, stage)
    case OpClearStage =>
      var s1 := s.(stored := s.stored.(stage := map[]));
      if s.sessionActive then Ended(s1) else s1
    case OpSetRenderSettings(rs, id) => RenderSet(s, rs, id)
    case OpSetRelayServer(host, port, pin) => RelaySet(s, host, port, pin)
  }

  function ApplyAll(s: State, ops: seq<Op>): State
    decreases |ops|
  {
    if |ops| == 0 then s else ApplyAll(Apply(s, ops[0]), ops[1..])
  }

  // ---------- Restarts are never forgotten ----------

  /** A running session that is not to be restarted runs with the stored settings. */
  ghost predicate Sound(s: State) {
    s.sessionActive && !s.restartNeeded ==> Agree(s.started, s.stored)
  }

  lemma ApplySound(s: State, op: Op)
    requires Sound(s)
    ensures Sound(Apply(s, op))
  {
    hide SameDevice, SameStage;
    SameReflexive(s.stored);
    if s.sessionActive && !s.restartNeeded {
      var t := Apply(s, op);
      if SameStage(s.stored.stage, t.stored.stage) {
        SameStageTransitive(s.started.stage, s.stored.stage, t.stored.stage);
      }
      if SameDevice(t.stored.thisdevice, s.stored.thisdevice) {
        SameDeviceTransitive(s.started.thisdevice, s.stored.thisdevice, t.stored.thisdevice);
      }
    }
  }

  lemma SameReflexive(a: Stored)
    ensures Agree(a, a)
  {
  }

  lemma SameDeviceTransitive(a: Device, b: Device, c: Device)
    requires SameDevice(a, b) && SameDevice(c, b)
    ensures SameDevice(a, c)
  {
  }

  /**
    In every state reachable by any calls in any order, an active session without a pending
    restart was started with settings equal, under the program's own comparison, to those stored.
   */
  lemma RestartSoundness(s: State, ops: seq<Op>)
    requires !s.sessionActive
    ensures var t := ApplyAll(s, ops); t.sessionActive && !t.restartNeeded ==> Agree(t.started, t.stored)
  {
    SoundRun(s, ops);
  }

  lemma {:induction false} SoundRun(s: State, ops: seq<Op>)
    requires Sound(s)
    ensures Sound(ApplyAll(s, ops))
    decreases |ops|
  {
    hide Sound, Apply;
    if |ops| > 0 {
      ApplySound(s, ops[0]);
      SoundRun(Apply(s, ops[0]), ops[1..]);
    }
  }

  /** Audio runs on the stored device, or both are manual. */
  predicate AudioSound(s: State) {
    s.running == s.audio || Manual(s.running, s.audio)
  }

  /**
    After any calls in any order the device that audio was started with last is the stored one; only
    one manual device may have been exchanged for another.
   */
  lemma {:induction false} AudioSoundness(s: State, ops: seq<Op>)
    requires AudioSound(s)
    ensures AudioSound(ApplyAll(s, ops))
    decreases |ops|
  {
    if |ops| > 0 {
      hide Apply;
      ApplyAudioSound(s, ops[0]);
      AudioSoundness(Apply(s, ops[0]), ops[1..]);
    }
  }

  lemma ApplyAudioSound(s: State, op: Op)
    requires AudioSound(s)
    ensures AudioSound(Apply(s, op))
  {
    hide SameDevice, SameStage;
  }

  // ---------- Configurations ----------

  datatype AudioConfig = AudioConfig(device: AudioDevice, restart: bool)

  /** Where an exception ends the handling of a configuration, if one does. */
  datatype Fault =
    | NoFault
    | BadAudio        // reading the audio device
    | BadRestart      // starting the audio backend for it, or reading the restart flag
    | FailedRestart   // starting the audio backend again on request
    | BadDevice       // reading this device
    | BadRoom         // reading the server of the room
    | BadSound        // reading the render settings
    | BadStage        // reading the stage
    | FailedAudio     // starting the audio backend at the end

  datatype Room = Room(host: string, port: u16, pin: u32, rs: RenderSettings, id: byte,
                       devices: Option<seq<Device>>)

  /** What `parse_config` reads; `quit` stands for any of the requests to leave the program. */
  datatype Config = Config(quit: bool, audio: Option<AudioConfig>, dev: Option<Device>, room: Option<Room>, fault: Fault)

  /** The stage made of a list of devices; a later device replaces an earlier one with its id. */
  function StageOf(devices: seq<Device>): map<byte, Device> {
    if |devices| == 0 then map[]
    else
      var last := devices[|devices| - 1];
      StageOf(devices[..|devices| - 1])[last.id := last]
  }

  /** A device is on the stage exactly under its id, and the last one with an id is there. */
  lemma {:induction false} StageOfMeaning(devices: seq<Device>, id: byte)
    ensures id in StageOf(devices) <==> exists k :: 0 <= k < |devices| && devices[k].id == id
    ensures id in StageOf(devices) ==>
              exists k :: IsLastWith(devices, k, id) && StageOf(devices)[id] == devices[k]
  {
    if |devices| > 0 {
      var n := |devices| - 1;
      StageOfMeaning(devices[..n], id);
      if devices[n].id == id {
        assert IsLastWith(devices, n, id);
      } else if id in StageOf(devices) {
        var k :| IsLastWith(devices[..n], k, id) && StageOf(devices[..n])[id] == devices[..n][k];
        assert IsLastWith(devices, k, id) && devices[k] == devices[..n][k];
      }
    }
  }

  predicate IsLastWith(devices: seq<Device>, k: int, id: byte) {
    0 <= k < |devices| && devices[k].id == id && forall j :: k < j < |devices| ==> devices[j].id != id
  }

  /** The audio backend is restarted on request; a running session ends and is to be restarted. */
  function AudioRestarted(s: State): State {
    if s.sessionActive then AudioBounced(s).(restartNeeded := true) else AudioBounced(s)
  }

  /** `done` if the configuration was applied to the end. */
  datatype Outcome = Outcome(state: State, done: bool)

  /** The restart on request, up to the point where the session is marked. */
  function AudioBounced(s: State): State {
    AudioStarted(AudioStopped(if s.sessionActive then Ended(s) else s))
  }

  function WithAudio(s: State, cfg: Config): Outcome {
    if cfg.audio.None? then Outcome(s, true)
    else if cfg.fault.BadAudio? then Outcome(s, false)
    else
      var t := AudioConfigured(s, cfg.audio.value.device);
      if cfg.fault.BadRestart? then Outcome(t, false)
      else if !cfg.audio.value.restart then Outcome(t, true)
      else if cfg.fault.FailedRestart? then Outcome(AudioBounced(t), false)
      else Outcome(AudioRestarted(t), true)
  }

  function WithDevice(s: State, cfg: Config): Outcome {
    if cfg.dev.None? then Outcome(s, true)
    else if cfg.fault.BadDevice? then Outcome(s, false)
    else Outcome(ThisdevSet(s, cfg.dev.value), true)
  }

  function WithRoom(s: State, cfg: Config): Outcome {
    if cfg.room.None? then Outcome(s, true)
    else if cfg.fault.BadRoom? then Outcome(s, false)
    else
      var room := cfg.room.value;
      var s1 := RelaySet(s, room.host, room.port, room.pin);
      if cfg.fault.BadSound? then Outcome(s1, false) else
        var s2 := RenderSet(s1, room.rs, room.id);
        if cfg.fault.BadStage? then Outcome(s2, false)
        else if room.devices.None? then Outcome(s2, true)
        else Outcome(Staged(s2, StageOf(room.devices.value)), true)
  }

  function Finished(s: State): State {
    Restarted(if s.audioActive then s else AudioStarted(s))
  }

  function Finish(s: State, cfg: Config): Outcome {
    if !s.audioActive && cfg.fault.FailedAudio? then Outcome(AudioStarted(s), false)
    else Outcome(Finished(s), true)
  }

  /** `parse_config`: the backend's state after one configuration. */
  function Configured(s: State, cfg: Config): Outcome {
    if cfg.quit then Outcome(s, false) else
      var o1 := WithAudio(s, cfg);
      if !o1.done then o1 else
        var o2 := WithDevice(o1.state, cfg);
        if !o2.done then o2 else
          var o3 := WithRoom(o2.state, cfg);
          if !o3.done then o3 else Finish(o3.state, cfg)
  }

  // ---------- What holds over every sequence of configurations ----------

  predicate SessionOn(log: seq<Event>) {
    |log| > 0 &&
    var e := log[|log| - 1];
    e.StartSession? || (!e.EndSession? && SessionOn(log[..|log| - 1]))
  }

  predicate AudioOn(log: seq<Event>) {
    |log| > 0 &&
    var e := log[|log| - 1];
    e.StartAudio? || (!e.StopAudio? && AudioOn(log[..|log| - 1]))
  }

  /**
    A session starts only on a running audio backend and when none is running, ends only when one
    is running, and audio never stops under a running session.
   */
  predicate Orderly(log: seq<Event>) {
    |log| > 0 ==>
      var before := log[..|log| - 1];
      && Orderly(before)
      && match log[|log| - 1]
         case StartSession => !SessionOn(before) && AudioOn(before)
         case EndSession => SessionOn(before)
         case StartAudio => !SessionOn(before)
         case StopAudio => !SessionOn(before)
  }

  /** The flags tell the truth, the log is orderly, and nothing runs on outdated settings unnoticed. */
  ghost predicate Inv(s: State) {
    Consistent(s) && AudioSound(s)
  }

  ghost predicate Consistent(s: State) {
    && Sound(s)
    && (s.sessionActive <==> SessionOn(s.log))
    && (s.audioActive <==> AudioOn(s.log))
    && (s.sessionActive ==> s.audioActive)
    && (!s.audioActive ==> s.audio.devicename != "manual")
    && Orderly(s.log)
  }

  lemma LogSnoc(log: seq<Event>, e: Event)
    ensures SessionOn(log + [e]) <==> e.StartSession? || (!e.EndSession? && SessionOn(log))
    ensures AudioOn(log + [e]) <==> e.StartAudio? || (!e.StopAudio? && AudioOn(log))
    ensures Orderly(log + [e]) <==>
            Orderly(log) && match e
                            case StartSession => !SessionOn(log) && AudioOn(log)
                            case EndSession => SessionOn(log)
                            case StartAudio => !SessionOn(log)
                            case StopAudio => !SessionOn(log)
  {
    assert (log + [e])[..|log|] == log;
  }

  lemma EndedInv(s: State)
    requires Consistent(s) && s.sessionActive
    ensures Consistent(Ended(s))
  {
    LogSnoc(s.log, EndSession);
  }

  lemma AudioBounceInv(s: State)
    requires Consistent(s) && !s.sessionActive && s.audioActive
    ensures Inv(AudioStarted(AudioStopped(s)))
  {
    LogSnoc(s.log, StopAudio);
    LogSnoc(s.log + [StopAudio], StartAudio);
  }

  lemma WithAudioInv(s: State, cfg: Config)
    requires Inv(s)
    ensures Inv(WithAudio(s, cfg).state)
  {
    hide Agree, SessionOn, AudioOn, Orderly;
    if cfg.audio.Some? && !cfg.fault.BadAudio? {
      var device := cfg.audio.value.device;
      AudioConfiguredInv(s, device);
      var t := AudioConfigured(s, device);
      if cfg.audio.value.restart {
        if t.sessionActive {
          EndedInv(t);
          AudioBounceInv(Ended(t));
        } else {
          AudioBounceInv(t);
        }
      }
    }
  }

  lemma AudioConfiguredInv(s: State, device: AudioDevice)
    requires Inv(s)
    ensures Inv(AudioConfigured(s, device)) && AudioConfigured(s, device).audioActive
  {
    hide Agree, SessionOn, AudioOn, Orderly;
    if (s.audio != device || !s.audioActive) && !Manual(s.audio, device) {
      var s1 := s.(audio := device);
      if s.audioActive && s.sessionActive {
        EndedInv(s1.(restartNeeded := true));
        AudioBounceInv(Ended(s1.(restartNeeded := true)));
      } else if s.audioActive {
        AudioBounceInv(s1);
      } else {
        LogSnoc(s.log, StartAudio);
      }
    }
  }

  lemma WithDeviceInv(s: State, cfg: Config)
    requires Inv(s)
    ensures Inv(WithDevice(s, cfg).state)
  {
    hide Agree, SameDevice, SameStage, SessionOn, AudioOn, Orderly;
    if cfg.dev.Some? {
      ApplySound(s, OpSetThisdev(cfg.dev.value));
    }
  }

  lemma RelaySetInv(s: State, host: string, port: u16, pin: u32)
    requires Inv(s)
    ensures Inv(RelaySet(s, host, port, pin))
  {
    hide SessionOn, AudioOn, Orderly;
    ApplySound(s, OpSetRelayServer(host, port, pin));
    LogSnoc(s.log, EndSession);
  }

  lemma RenderSetInv(s: State, rs: RenderSettings, id: byte)
    requires Inv(s)
    ensures Inv(RenderSet(s, rs, id))
  {
    hide SameDevice, SameStage, SessionOn, AudioOn, Orderly;
  }

  lemma StagedInv(s: State, stage: map<byte, Device>)
    requires Inv(s)
    ensures Inv(Staged(s, stage))
  {
    hide SessionOn, AudioOn, Orderly;
    ApplySound(s, OpSetStage(stage));
  }

  lemma WithRoomInv(s: State, cfg: Config)
    requires Inv(s)
    ensures Inv(WithRoom(s, cfg).state)
  {
    hide Inv, RelaySet, RenderSet, Staged, StageOf;
    if cfg.room.Some? {
      var room := cfg.room.value;
      RelaySetInv(s, room.host, room.port, room.pin);
      var s1 := RelaySet(s, room.host, room.port, room.pin);
      RenderSetInv(s1, room.rs, room.id);
      if room.devices.Some? {
        StagedInv(RenderSet(s1, room.rs, room.id), StageOf(room.devices.value));
      }
    }
  }

  lemma FinishedInv(s: State)
    requires Inv(s)
    ensures Inv(Finished(s)) && Finished(s).sessionActive && !Finished(s).restartNeeded
    ensures Finished(s).stored == s.stored && Finished(s).audio == s.audio
  {
    hide SameDevice, SameStage, SessionOn, AudioOn, Orderly;
    LogSnoc(s.log, StartAudio);
    var s1 := if s.audioActive then s else AudioStarted(s);
    assert Inv(s1);
    ApplySound(s1, OpRestartIfNeeded);
    if s1.restartNeeded && s1.sessionActive {
      EndedInv(s1);
      LogSnoc(Ended(s1).log, StartSession);
    } else {
      LogSnoc(s1.log, StartSession);
    }
  }

  lemma FailedAudioInv(s: State)
    requires Inv(s) && !s.audioActive
    ensures Inv(AudioStarted(s))
  {
    LogSnoc(s.log, StartAudio);
  }

  /**
    Over every sequence of configurations, also faulty and partly applied ones: audio is never
    stopped while a session runs, a running session implies running audio, and a session without
    pending restart runs with the stored settings.
   */
  lemma ConfiguredInv(s: State, cfg: Config)
    requires Inv(s)
    ensures Inv(Configured(s, cfg).state)
  {
    hide Inv, Sound, WithAudio, WithDevice, WithRoom, Finished;
    if !cfg.quit {
      WithAudioInv(s, cfg);
      var o1 := WithAudio(s, cfg);
      WithDeviceInv(o1.state, cfg);
      var o2 := WithDevice(o1.state, cfg);
      WithRoomInv(o2.state, cfg);
      var o3 := WithRoom(o2.state, cfg);
      FinishedInv(o3.state);
      if !o3.state.audioActive {
        FailedAudioInv(o3.state);
      }
    }
  }

  /** The stored settings after a configuration: what it mentions is replaced, the rest is kept. */
  function Wanted(old_: Stored, cfg: Config): Stored {
    var s1 := if cfg.dev.Some? then old_.(thisdevice := cfg.dev.value) else old_;
    if cfg.room.None? then s1 else
      var r := cfg.room.value;
      s1.(host := r.host, port := r.port, pin := r.pin, rendersettings := r.rs, thisstagedeviceid := r.id,
          stage := if r.devices.Some? then StageOf(r.devices.value) else s1.stage)
  }

  lemma WithAudioStored(s: State, cfg: Config)
    ensures WithAudio(s, cfg).state.stored == s.stored
    ensures WithAudio(s, cfg).done ==>
              WithAudio(s, cfg).state.audio == if cfg.audio.Some? then cfg.audio.value.device else s.audio
  {
    hide AudioConfigured, AudioRestarted, AudioBounced;
    if cfg.audio.Some? {
      AudioStored(s, cfg.audio.value.device);
    }
  }

  lemma AudioStored(s: State, device: AudioDevice)
    ensures var t := AudioConfigured(s, device);
            && t.stored == s.stored && t.audio == device
            && AudioRestarted(t).stored == AudioBounced(t).stored == s.stored && AudioRestarted(t).audio == device
  {
  }

  lemma WithRoomStored(s: State, cfg: Config)
    requires WithRoom(s, cfg).done
    ensures WithRoom(s, cfg).state.stored == Wanted(s.stored, cfg.(dev := None))
    ensures WithRoom(s, cfg).state.audio == s.audio
  {
    hide SameDevice, SameStage, StageOf, RelaySet, RenderSet;
    if cfg.room.Some? {
      var r := cfg.room.value;
      RelayStored(s, r.host, r.port, r.pin);
      RenderStored(RelaySet(s, r.host, r.port, r.pin), r.rs, r.id);
    }
  }

  lemma RelayStored(s: State, host: string, port: u16, pin: u32)
    ensures RelaySet(s, host, port, pin).stored == s.stored.(host := host, port := port, pin := pin)
    ensures RelaySet(s, host, port, pin).audio == s.audio
  {
  }

  lemma RenderStored(s: State, rs: RenderSettings, id: byte)
    ensures RenderSet(s, rs, id).stored == s.stored.(rendersettings := rs, thisstagedeviceid := id)
    ensures RenderSet(s, rs, id).audio == s.audio
  {
  }

  /** A configuration applied to the end leaves session and audio running, on exactly its settings. */
  lemma ConfiguredConverges(s: State, cfg: Config)
    requires Inv(s) && Configured(s, cfg).done
    ensures var t := Configured(s, cfg).state;
            && t.sessionActive && t.audioActive && !t.restartNeeded
            && t.stored == Wanted(s.stored, cfg) && Agree(t.started, t.stored)
            && (cfg.dev.Some? ==> t.stored.thisdevice == cfg.dev.value)
            && (cfg.room.Some? ==>
                  var r := cfg.room.value;
                  && t.stored.host == r.host && t.stored.port == r.port && t.stored.pin == r.pin
                  && t.stored.rendersettings == r.rs && t.stored.thisstagedeviceid == r.id
                  && (r.devices.Some? ==> t.stored.stage == StageOf(r.devices.value)))
            && t.audio == (if cfg.audio.Some? then cfg.audio.value.device else s.audio)
            && (t.running == t.audio || (t.running.devicename == "manual" && t.audio.devicename == "manual"))
  {
    hide Inv, Sound, Agree, SameDevice, SameStage, Finished, StageOf, WithRoom, WithAudio;
    ConfiguredInv(s, cfg);
    WithAudioInv(s, cfg);
    WithAudioStored(s, cfg);
    var s1 := WithAudio(s, cfg).state;
    WithDeviceInv(s1, cfg);
    var s2 := WithDevice(s1, cfg).state;
    WithRoomInv(s2, cfg);
    WithRoomStored(s2, cfg);
    var s3 := WithRoom(s2, cfg).state;
    FinishedInv(s3);
    RunningAgrees(Finished(s3));
  }

  lemma RunningAgrees(s: State)
    requires Inv(s) && s.sessionActive && !s.restartNeeded
    ensures s.audioActive && Agree(s.started, s.stored)
    ensures s.running == s.audio || (s.running.devicename == "manual" && s.audio.devicename == "manual")
  {
  }

  /** Applying the same configuration again does nothing: no start, no stop, no change. */
  lemma ConfiguredIdempotent(s: State, cfg: Config)
    requires Inv(s) && Configured(s, cfg).done
    requires cfg.audio.Some? ==> !cfg.audio.value.restart
    ensures Configured(Configured(s, cfg).state, cfg) == Configured(s, cfg)
  {
    hide Agree, SessionOn, AudioOn, Orderly, StageOf;
    ConfiguredConverges(s, cfg);
    var t := Configured(s, cfg).state;
    SameReflexive(t.stored);
    assert WithAudio(t, cfg) == Outcome(t, true);
    assert WithDevice(t, cfg) == Outcome(t, true);
    assert WithRoom(t, cfg) == Outcome(t, true);
  }

  // ---------- What one configuration starts and stops ----------

  /** The session is to be started or restarted at the end of the configuration. */
  predicate Due(s: State) {
    !s.sessionActive || s.restartNeeded
  }

  /** Audio runs on another device than the configured one, and one of them is not manual. */
  predicate OnOtherDevice(s: State, cfg: Config) {
    cfg.audio.Some? && s.audioActive && cfg.audio.value.device != s.audio && !Manual(s.audio, cfg.audio.value.device)
  }

  predicate RestartAsked(cfg: Config) {
    cfg.audio.Some? && cfg.audio.value.restart
  }

  predicate RelayChanges(s: Stored, cfg: Config) {
    cfg.room.Some? &&
    var r := cfg.room.value;
    s.host != r.host || s.port != r.port || s.pin != r.pin
  }

  predicate SettingsChange(s: Stored, cfg: Config) {
    || (cfg.dev.Some? && !SameDevice(cfg.dev.value, s.thisdevice))
    || RelayChanges(s, cfg)
    || (cfg.room.Some? &&
        var r := cfg.room.value;
        || r.rs != s.rendersettings || r.id != s.thisstagedeviceid
        || (r.devices.Some? && !SameStage(s.stage, StageOf(r.devices.value))))
  }

  /** A configuration changes the settings exactly if those it leads to do not agree with the stored ones. */
  lemma ChangeMeans(s: Stored, cfg: Config)
    ensures SettingsChange(s, cfg) <==> !Agree(s, Wanted(s, cfg))
  {
    hide StageOf;
    SameReflexive(s);
  }

  lemma Appended(log: seq<Event>, a: Event, b: Event)
    ensures log + [] == log && log + [a] + [b] == log + [a, b]
  {
  }

  lemma AudioLog(s: State, cfg: Config)
    requires WithAudio(s, cfg).done
    requires s.audioActive || (!s.sessionActive && s.audio.devicename != "manual")
    ensures var t := WithAudio(s, cfg).state;
            var bounced := OnOtherDevice(s, cfg) || RestartAsked(cfg);
            && t.log == s.log + (if s.sessionActive && bounced then [EndSession] else [])
                        + (if !s.audioActive && cfg.audio.Some? then [StartAudio]
                           else if OnOtherDevice(s, cfg) then [StopAudio, StartAudio] else [])
                        + (if RestartAsked(cfg) then [StopAudio, StartAudio] else [])
            && t.stored == s.stored && t.audioActive == (s.audioActive || cfg.audio.Some?)
            && t.sessionActive == (s.sessionActive && !bounced)
            && (Due(t) <==> Due(s) || bounced)
  {
    if cfg.audio.Some? {
      var l := if s.sessionActive && (OnOtherDevice(s, cfg) || RestartAsked(cfg)) then s.log + [EndSession] else s.log;
      Appended(s.log, StopAudio, StartAudio);
      Appended(l, StopAudio, StartAudio);
      Appended(l + [StartAudio], StopAudio, StartAudio);
      Appended(l + [StopAudio, StartAudio], StopAudio, StartAudio);
    }
  }

  lemma DeviceLog(s: State, cfg: Config)
    requires WithDevice(s, cfg).done
    ensures var t := WithDevice(s, cfg).state;
            && t.log == s.log && t.audioActive == s.audioActive && t.sessionActive == s.sessionActive
            && t.stored.(thisdevice := s.stored.thisdevice) == s.stored
            && (Due(t) <==> Due(s) || SettingsChange(s.stored, cfg.(room := None)))
  {
    hide SameDevice;
  }

  lemma RoomLog(s: State, cfg: Config)
    requires WithRoom(s, cfg).done
    ensures var t := WithRoom(s, cfg).state;
            && t.log == s.log + (if s.sessionActive && RelayChanges(s.stored, cfg) then [EndSession] else [])
            && t.audioActive == s.audioActive
            && t.sessionActive == (s.sessionActive && !RelayChanges(s.stored, cfg))
            && (Due(t) <==> Due(s) || SettingsChange(s.stored, cfg.(dev := None)))
  {
    hide SameStage, StageOf, RelaySet, RenderSet;
    assert s.log + [] == s.log;
    if cfg.room.Some? {
      var r := cfg.room.value;
      RelayLog(s, r.host, r.port, r.pin);
      RenderLog(RelaySet(s, r.host, r.port, r.pin), r.rs, r.id);
    }
  }

  lemma RelayLog(s: State, host: string, port: u16, pin: u32)
    ensures var t := RelaySet(s, host, port, pin);
            var same := s.stored.host == host && s.stored.port == port && s.stored.pin == pin;
            && t.log == s.log + (if s.sessionActive && !same then [EndSession] else [])
            && t.audioActive == s.audioActive && t.sessionActive == (s.sessionActive && same)
            && (Due(t) <==> Due(s) || !same)
            && t.stored == s.stored.(host := host, port := port, pin := pin)
  {
  }

  lemma RenderLog(s: State, rs: RenderSettings, id: byte)
    ensures var t := RenderSet(s, rs, id);
            && t.log == s.log && t.audioActive == s.audioActive && t.sessionActive == s.sessionActive
            && t.stored.stage == s.stored.stage
            && (Due(t) <==> Due(s) || rs != s.stored.rendersettings || id != s.stored.thisstagedeviceid)
  {
  }

  lemma FinishedLog(s: State)
    ensures Finished(s).log == s.log + (if s.audioActive then [] else [StartAudio])
                               + (if Due(s) && s.sessionActive then [EndSession] else [])
                               + (if Due(s) then [StartSession] else [])
  {
  }

  /** From the end of the audio part on: the session ends at most once, and is started if it is due. */
  lemma SettingsLog(s: State, cfg: Config)
    requires WithDevice(s, cfg).done && WithRoom(WithDevice(s, cfg).state, cfg).done
    requires s.audioActive || !s.sessionActive
    ensures var t := Finished(WithRoom(WithDevice(s, cfg).state, cfg).state);
            var due := Due(s) || SettingsChange(s.stored, cfg);
            t.log == s.log + (if s.sessionActive && due then [EndSession] else [])
                     + (if s.audioActive then [] else [StartAudio])
                     + (if due then [StartSession] else [])
  {
    hide SameDevice, SameStage, StageOf, WithDevice, WithRoom, Finished;
    var s2 := WithDevice(s, cfg).state;
    DeviceLog(s, cfg);
    RoomLog(s2, cfg);
    FinishedLog(WithRoom(s2, cfg).state);
    assert s.log + [] == s.log;
    assert s.log + [EndSession] + [] == s.log + [EndSession];
  }

  /**
    All that a configuration applied to the end starts and stops, in this order: a running session
    ends if a new one is due; audio is started if it was not running, or stopped and started on
    another device; it is stopped and started once more if that is asked for; and a session starts
    if none was running, a restart was pending, audio was stopped, or some setting differs under
    the program's own comparison. If none of this is the case, nothing is started or stopped.
   */
  lemma ConfiguredEvents(s: State, cfg: Config)
    requires Inv(s) && Configured(s, cfg).done
    ensures var asked := cfg.audio.Some? && cfg.audio.value.restart;
            var onOther := cfg.audio.Some? && s.audioActive && cfg.audio.value.device != s.audio
                           && !(cfg.audio.value.device.devicename == "manual" && s.audio.devicename == "manual");
            var due := !s.sessionActive || s.restartNeeded || onOther || asked
                       || !Agree(s.stored, Wanted(s.stored, cfg));
            Configured(s, cfg).state.log ==
            s.log + (if s.sessionActive && due then [EndSession] else [])
            + (if !s.audioActive then [StartAudio] else if onOther then [StopAudio, StartAudio] else [])
            + (if asked then [StopAudio, StartAudio] else [])
            + (if due then [StartSession] else [])
  {
    hide Agree, SameDevice, SameStage, SessionOn, AudioOn, Orderly, Finished, WithRoom, WithDevice, WithAudio,
      SettingsChange, Wanted;
    var s1 := WithAudio(s, cfg).state;
    AudioLog(s, cfg);
    SettingsLog(s1, cfg);
    ChangeMeans(s.stored, cfg);
    assert s1.log + [] == s1.log;
    assert s.log + [] == s.log;
    assert s.log + [] + [] == s.log;
  }

  /** A configuration is applied to the end unless a request to quit or an exception comes in between. */
  lemma ConfiguredDoneIff(s: State, cfg: Config)
    ensures Configured(s, cfg).done <==>
            !cfg.quit &&
            match cfg.fault
            case NoFault => true
            case BadAudio => cfg.audio.None?
            case BadRestart => cfg.audio.None?
            case FailedRestart => cfg.audio.None? || !cfg.audio.value.restart
            case BadDevice => cfg.dev.None?
            case BadRoom => cfg.room.None?
            case BadSound => cfg.room.None?
            case BadStage => cfg.room.None?
            case FailedAudio => s.audioActive || cfg.audio.Some?
  {
    hide AudioConfigured, AudioBounced, AudioRestarted, ThisdevSet, RelaySet, RenderSet, Staged, StageOf, Finished;
    var s1 := WithAudio(s, cfg).state;
    AudioOnAfter(s, cfg);
    RoomKeepsAudio(WithDevice(s1, cfg).state, cfg);
    assert WithDevice(s1, cfg).state.audioActive == s1.audioActive by { DeviceKeepsAudio(s1, cfg); }
  }

  lemma AudioOnAfter(s: State, cfg: Config)
    ensures WithAudio(s, cfg).done ==> WithAudio(s, cfg).state.audioActive == (s.audioActive || cfg.audio.Some?)
  {
    hide Manual;
  }

  lemma DeviceKeepsAudio(s: State, cfg: Config)
    ensures WithDevice(s, cfg).state.audioActive == s.audioActive
  {
    hide SameDevice;
  }

  lemma RoomKeepsAudio(s: State, cfg: Config)
    ensures WithRoom(s, cfg).state.audioActive == s.audioActive
  {
    hide RelaySet, RenderSet, SameStage, StageOf;
    if cfg.room.Some? {
      var r := cfg.room.value;
      RelayLog(s, r.host, r.port, r.pin);
      RenderLog(RelaySet(s, r.host, r.port, r.pin), r.rs, r.id);
    }
  }

  /** With the audio restart flag set, every repetition ends the session and starts it again. */
  lemma RestartFlagRestarts(s: State, cfg: Config)
    requires Inv(s) && Configured(s, cfg).done && cfg.audio.Some? && cfg.audio.value.restart
    ensures var t := Configured(s, cfg).state;
            && Configured(t, cfg).done
            && Configured(t, cfg).state.log == t.log + [EndSession, StopAudio, StartAudio, StartSession]
  {
    hide Inv, Configured, Agree, Wanted;
    var t := Configured(s, cfg).state;
    ConfiguredInv(s, cfg);
    ConfiguredConverges(s, cfg);
    ConfiguredDoneIff(s, cfg);
    ConfiguredDoneIff(t, cfg);
    ConfiguredEvents(t, cfg);
    assert t.log + [EndSession] + [] + [StopAudio, StartAudio] + [StartSession] ==
           t.log + [EndSession, StopAudio, StartAudio, StartSession];
  }

  // ---------- All configurations of a service, and its end ----------

  /** Once one configuration asks to quit, no later one is applied. */
  function Served(s: State, quit: bool, cfgs: seq<Config>): State {
    if |cfgs| == 0 then s
    else
      var n := |cfgs| - 1;
      Configured(Served(s, quit, cfgs[..n]), cfgs[n].(quit := QuitBy(quit, cfgs))).state
  }

  predicate QuitBy(quit: bool, cfgs: seq<Config>) {
    quit || exists k :: 0 <= k < |cfgs| && cfgs[k].quit
  }

  function ShutDown(s: State): State {
    AudioStopped(if s.sessionActive then Ended(s) else s)
  }

  lemma {:induction false} ServedInv(s: State, quit: bool, cfgs: seq<Config>)
    requires Inv(s)
    ensures Inv(Served(s, quit, cfgs))
  {
    hide Inv, Configured;
    if |cfgs| > 0 {
      var n := |cfgs| - 1;
      ServedInv(s, quit, cfgs[..n]);
      ConfiguredInv(Served(s, quit, cfgs[..n]), cfgs[n].(quit := QuitBy(quit, cfgs)));
    }
  }

  /**
    Whatever configurations came before, faulty ones included: as long as none asked to quit, one
    without a fault leaves session and audio running, on the settings it gives.
   */
  lemma ServedConverges(s: State, cfgs: seq<Config>, cfg: Config)
    requires Inv(s) && cfg.fault.NoFault? && !QuitBy(false, cfgs + [cfg])
    ensures var was, t := Served(s, false, cfgs), Served(s, false, cfgs + [cfg]);
            && t.sessionActive && t.audioActive && !t.restartNeeded
            && t.stored == Wanted(was.stored, cfg) && Agree(t.started, t.stored)
            && t.audio == (if cfg.audio.Some? then cfg.audio.value.device else was.audio)
            && (t.running == t.audio || (t.running.devicename == "manual" && t.audio.devicename == "manual"))
  {
    hide Inv, Configured, Agree, Wanted;
    assert (cfgs + [cfg])[..|cfgs|] == cfgs && (cfgs + [cfg])[|cfgs|] == cfg;
    assert cfg.(quit := false) == cfg;
    ServedInv(s, false, cfgs);
    ConfiguredDoneIff(Served(s, false, cfgs), cfg);
    ConfiguredConverges(Served(s, false, cfgs), cfg);
  }

  /** After a request to quit nothing is started, stopped or stored any more. */
  lemma {:induction false} NothingAfterQuit(s: State, quit: bool, before: seq<Config>, rest: seq<Config>)
    requires QuitBy(quit, before)
    ensures Served(s, quit, before + rest) == Served(s, quit, before)
  {
    var all := before + rest;
    if |rest| == 0 {
      assert all == before;
    } else {
      var n := |all| - 1;
      assert all[..n] == before + rest[..|rest| - 1];
      NothingAfterQuit(s, quit, before, rest[..|rest| - 1]);
      assert QuitBy(quit, all) by {
        if !quit {
          var k :| 0 <= k < |before| && before[k].quit;
          assert all[k].quit;
        }
      }
    }
  }
}
