/** The backend object that the reconcile machine describes, and the client that drives it. */
module RenderBackend {
  import opened Numbers
  import opened Settings
  import opened Reconcile

  class Backend {
    var audio: AudioDevice
    var stage: Stored
    var sessionActive: bool
    var audioActive: bool
    var restartNeeded: bool
    /// the settings the last session was started with
    ghost var started: Stored
    /// the device audio was last started with
    ghost var running: AudioDevice
    ghost var log: seq<Event>

    ghost function State(): State
      reads this
    {
      Reconcile.State(audio, stage, sessionActive, audioActive, restartNeeded, started, running, log)
    }

    constructor (stage: Stored)
      ensures !sessionActive && !audioActive && this.stage == stage && Inv(State())
    {
      audio := AudioDevice("", "", 48000.0, 96, 2, 40);
      this.stage := stage;
      sessionActive, audioActive, restartNeeded := false, false, false;
      started, running, log := stage, AudioDevice("", "", 48000.0, 96, 2, 40), [];
    }

    method StartSession()
      modifies this
      ensures State() == Apply(old(State()), OpStartSession)
    {
      sessionActive := true;
      restartNeeded := false;
      started, log := stage, log + [Event.StartSession];
    }

    method EndSession()
      modifies this
      ensures State() == Apply(old(State()), OpEndSession)
    {
      sessionActive := false;
      log := log + [Event.EndSession];
    }

    method StartAudioBackend()
      modifies this
      ensures State() == Apply(old(State()), OpStartAudio)
    {
      audioActive := true;
      running, log := audio, log + [StartAudio];
    }

    method StopAudioBackend()
      modifies this
      ensures State() == Apply(old(State()), OpStopAudio)
    {
      audioActive := false;
      log := log + [StopAudio];
    }

    method RequireSessionRestart()
      modifies this
      ensures State() == Apply(old(State()), OpRequireRestart)
    {
      restartNeeded := true;
    }

    method RestartSessionIfNeeded()
      modifies this
      ensures State() == Apply(old(State()), OpRestartIfNeeded)
    {
      if restartNeeded {
        if sessionActive {
          EndSession();
        }
        StartSession();
      } else {
        if !sessionActive {
          StartSession();
        }
      }
    }

    method ConfigureAudioBackend(device: AudioDevice)
      modifies this
      ensures State() == Apply(old(State()), OpConfigureAudio(device))
      ensures audio == device && audioActive
      ensures var manual := old(audio).devicename == "manual" && device.devicename == "manual";
              log == old(log) +
                     if manual || (old(audio) == device && old(audioActive)) then []
                     else if !old(audioActive) then [StartAudio]
                     else if !old(sessionActive) then [StopAudio, StartAudio]
                     else [Event.EndSession, StopAudio, StartAudio]
      ensures old(sessionActive) && !sessionActive ==> restartNeeded
    {
      if audio != device || !audioActive {
        var noRestart := audio.devicename == "manual" && device.devicename == "manual";
        audio := device;
        if !noRestart && audioActive {
          if sessionActive {
            RequireSessionRestart();
            EndSession();
          }
          StopAudioBackend();
        }
        if !noRestart {
          StartAudioBackend();
        }
        audioActive := true;
      }
    }

    method SetThisdev(dev: Device)
      modifies this
      ensures stage == old(stage).(thisdevice := dev)
      ensures State() == Apply(old(State()), OpSetThisdev(dev))
    {
      var differ := DeviceDiffers(dev, stage.thisdevice);
      if differ {
        RequireSessionRestart();
      }
      stage := stage.(thisdevice := dev);
    }

    /** Replaces the stage; a running session needs a restart if the stage differs. */
    method ReplaceStage(devices: map<byte, Device>)
      modifies this
      ensures State() == Staged(old(State()), devices)
    {
      var previous := stage.stage;
      stage := stage.(stage := devices);
      var differ := StageDiffers(previous, stage.stage);
      if differ && sessionActive {
        RequireSessionRestart();
      }
    }

    method AddStageDevice(dev: Device)
      modifies this
      ensures State() == Apply(old(State()), OpAddStageDevice(dev))
      ensures stage == old(stage).(stage := old(stage.stage)[dev.id := dev])
    {
      ReplaceStage(stage.stage[dev.id := dev]);
    }

    method RmStageDevice(id: byte)
      modifies this
      ensures State() == Apply(old(State()), OpRmStageDevice(id))
      ensures id !in stage.stage && old(stage) == stage.(stage := old(stage.stage))
      ensures forall k :: k != id ==> (k in stage.stage <==> k in old(stage.stage))
      ensures forall k :: k in stage.stage ==> stage.stage[k] == old(stage.stage)[k]
    {
      ReplaceStage(stage.stage - {id});
    }

    method SetStage(devices: map<byte, Device>)
      modifies this
      ensures State() == Apply(old(State()), OpSetStage(devices))
      ensures stage == old(stage).(stage := devices)
    {
      ReplaceStage(devices);
    }

    method ClearStage()
      modifies this
      ensures State() == Apply(old(State()), OpClearStage)
      ensures stage == old(stage).(stage := map[]) && !sessionActive
    {
      stage := stage.(stage := map[]);
      if sessionActive {
        EndSession();
      }
    }

    method SetRenderSettings(rs: RenderSettings, id: byte)
      modifies this
      ensures State() == Apply(old(State()), OpSetRenderSettings(rs, id))
      ensures stage == old(stage).(rendersettings := rs, thisstagedeviceid := id)
    {
      if rs != stage.rendersettings || id != stage.thisstagedeviceid {
        stage := stage.(rendersettings := rs, thisstagedeviceid := id);
        RequireSessionRestart();
      }
    }

    method SetRelayServer(host: string, port: u16, pin: u32)
      modifies this
      ensures State() == Apply(old(State()), OpSetRelayServer(host, port, pin))
      ensures stage == old(stage).(host := host, port := port, pin := pin)
      ensures stage != old(stage) ==> !sessionActive
    {
      var restart := false;
      if sessionActive && (stage.host != host || stage.port != port || stage.pin != pin) {
        restart := true;
      }
      stage := stage.(host := host, port := port, pin := pin);
      if restart {
        EndSession();
        RequireSessionRestart();
      }
    }
  }

  /** `ov_client_orlandoviols_t`, as far as it drives the backend. */
  class Client {
    const backend: Backend
    var quitRequest: bool

    constructor (backend: Backend)
      ensures this.backend == backend && !quitRequest
    {
      this.backend := backend;
      quitRequest := false;
    }

    method BuildStage(devices: seq<Device>) returns (stage: map<byte, Device>)
      ensures stage == StageOf(devices)
      ensures forall id: byte :: id in stage <==> exists k :: 0 <= k < |devices| && devices[k].id == id
      ensures forall id: byte :: id in stage ==> exists k :: IsLastWith(devices, k, id) && stage[id] == devices[k]
    {
      stage := map[];
      for k := 0 to |devices|
        invariant stage == StageOf(devices[..k])
      {
        assert devices[..k + 1][..k] == devices[..k];
        stage := stage[devices[k].id := devices[k]];
      }
      assert devices[..|devices|] == devices;
      forall id: byte {
        StageOfMeaning(devices, id);
      }
    }

    /** The part about the audio device; false if an exception ends it. */
    method ConfigureAudio(cfg: Config) returns (done: bool)
      modifies backend
      ensures Outcome(backend.State(), done) == WithAudio(old(backend.State()), cfg)
    {
      hide AudioConfigured;
      if cfg.audio.Some? {
        if cfg.fault.BadAudio? {
          return false;
        }
        backend.ConfigureAudioBackend(cfg.audio.value.device);
        if cfg.fault.BadRestart? {
          return false;
        }
        if cfg.audio.value.restart {
          var sessionWasActive := backend.sessionActive;
          if sessionWasActive {
            backend.EndSession();
          }
          backend.StopAudioBackend();
          backend.StartAudioBackend();
          if cfg.fault.FailedRestart? {
            return false;
          }
          if sessionWasActive {
            backend.RequireSessionRestart();
          }
        }
      }
      return true;
    }

    /** The part about the room; false if an exception ends it. */
    method ConfigureRoom(cfg: Config) returns (done: bool)
      modifies backend
      ensures Outcome(backend.State(), done) == WithRoom(old(backend.State()), cfg)
    {
      hide StageOf, RelaySet, RenderSet;
      if cfg.room.None? {
        return true;
      }
      if cfg.fault.BadRoom? {
        return false;
      }
      var room := cfg.room.value;
      backend.SetRelayServer(room.host, room.port, room.pin);
      if cfg.fault.BadSound? {
        return false;
      }
      backend.SetRenderSettings(room.rs, room.id);
      if cfg.fault.BadStage? {
        return false;
      }
      if room.devices.Some? {
        var devices := BuildStage(room.devices.value);
        backend.SetStage(devices);
      }
      return true;
    }

    /** `parse_config`; false if it is left early, by a request to quit or an exception. */
    method ParseConfig(cfg: Config) returns (done: bool)
      modifies this, backend
      ensures quitRequest == (old(quitRequest) || cfg.quit)
      ensures Outcome(backend.State(), done) == Configured(old(backend.State()), cfg.(quit := quitRequest))
      ensures quitRequest ==> !done && backend.State() == old(backend.State())
      ensures !quitRequest && cfg.fault.NoFault? ==> done
    {
      hide WithRoom, WithAudio;
      if cfg.quit {
        quitRequest := true;
      }
      ConfiguredDoneIff(backend.State(), cfg.(quit := quitRequest));
      if quitRequest {
        return false;
      }
      done := ConfigureAudio(cfg);
      if !done {
        return false;
      }
      if cfg.dev.Some? {
        if cfg.fault.BadDevice? {
          return false;
        }
        backend.SetThisdev(cfg.dev.value);
      }
      done := ConfigureRoom(cfg);
      if done {
        if !backend.audioActive {
          backend.StartAudioBackend();
          if cfg.fault.FailedAudio? {
            return false;
          }
        }
        backend.RestartSessionIfNeeded();
      }
    }

    /** `service`: any sequence of configurations, then the shutdown. */
    method Service(cfgs: seq<Config>)
      requires Inv(backend.State())
      modifies this, backend
      ensures backend.State() == ShutDown(Served(old(backend.State()), old(quitRequest), cfgs))
      ensures quitRequest == QuitBy(old(quitRequest), cfgs)
      ensures !backend.sessionActive && !backend.audioActive
      ensures Orderly(backend.log) && !SessionOn(backend.log) && !AudioOn(backend.log)
    {
      hide Inv, Configured, SessionOn, AudioOn, Orderly;
      for k := 0 to |cfgs|
        invariant backend.State() == Served(old(backend.State()), old(quitRequest), cfgs[..k])
        invariant quitRequest == QuitBy(old(quitRequest), cfgs[..k])
      {
        assert cfgs[..k + 1] == cfgs[..k] + [cfgs[k]];
        var done := ParseConfig(cfgs[k]);
        QuitNext(old(quitRequest), cfgs[..k], cfgs[k]);
      }
      assert cfgs[..|cfgs|] == cfgs;
      ServedInv(old(backend.State()), old(quitRequest), cfgs);
      ShutdownOrderly(backend.State());
      if backend.sessionActive {
        backend.EndSession();
      }
      backend.StopAudioBackend();
    }
  }

  lemma QuitNext(quit: bool, cfgs: seq<Config>, cfg: Config)
    ensures QuitBy(quit, cfgs + [cfg]) == (QuitBy(quit, cfgs) || cfg.quit)
  {
    var all := cfgs + [cfg];
    assert all[|cfgs|] == cfg && forall k :: 0 <= k < |cfgs| ==> all[k] == cfgs[k];
  }

  lemma ShutdownOrderly(s: State)
    requires Inv(s)
    ensures var log := (if s.sessionActive then s.log + [EndSession] else s.log) + [StopAudio];
            Orderly(log) && !SessionOn(log) && !AudioOn(log)
  {
    LogSnoc(s.log, EndSession);
    LogSnoc(if s.sessionActive then s.log + [EndSession] else s.log, StopAudio);
  }
}
