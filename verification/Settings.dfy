/** The settings of a session and the comparisons that decide whether it has to be restarted. */
module Settings {
  import opened Numbers

  datatype Pos = Pos(x: real, y: real, z: real)

  datatype Euler = Euler(z: real, y: real, x: real)

  datatype Plugin = Plugin(name: string, params: map<string, string>)

  datatype Channel = Channel(id: string, sourceport: string, gain: real, position: Pos, directivity: string,
                             plugins: seq<Plugin>, name: string)

  datatype Device = Device(
    id: byte, uid: string, devlabel: string, channels: seq<Channel>, position: Pos, orientation: Euler,
    gain: real, mute: bool, senderjitter: real, receiverjitter: real, sendlocal: bool,
    receivedownmix: bool, senddownmix: bool, nozita: bool, hiresping: bool)

  /** `render_settings_t`; its comparison looks at every field, so it is that of the values. */
  datatype RenderSettings = RenderSettings(
    id: byte, roomsize: Pos, absorption: real, damping: real, reverbgain: real, reverbgainroom: real,
    reverbgaindev: real, renderreverb: bool, renderism: bool, distancelaw: bool, rawmode: bool,
    receive: bool, rectype: string, egogain: real, outputgain: real, peer2peer: bool,
    outputport1: string, outputport2: string, xports: map<string, string>, xrecport: seq<u16>,
    secrec: real, headtracking: bool, headtrackingserial: bool, headtrackingrotrec: bool,
    headtrackingrotsrc: bool, headtrackingport: u16, ambientsound: string, ambientlevel: real,
    lmetertc: real, lmeterfw: string, delaycomp: real, decorr: real, usetcptunnel: bool, encryption: bool)

  /** `audio_device_t`; all fields are compared. */
  datatype AudioDevice = AudioDevice(
    drivername: string, devicename: string, srate: real, periodsize: u32, numperiods: u32, priority: u32)

  /** The settings a session is started with. */
  datatype Stored = Stored(
    host: string, port: u16, pin: u32, rendersettings: RenderSettings, thisstagedeviceid: byte,
    stage: map<byte, Device>, thisdevice: Device)

  // ---------- The comparisons, by what they mean ----------

  /** The channel id does not take part in the comparison. */
  predicate SameChannel(a: Channel, b: Channel) {
    a.(id := b.id) == b
  }

  predicate SameChannels(a: seq<Channel>, b: seq<Channel>) {
    |a| == |b| && forall k :: 0 <= k < |a| ==> SameChannel(a[k], b[k])
  }

  predicate SameDevice(a: Device, b: Device) {
    a.(channels := b.channels) == b && SameChannels(a.channels, b.channels)
  }

  predicate SameStage(a: map<byte, Device>, b: map<byte, Device>) {
    a.Keys == b.Keys && forall k :: k in a ==> SameDevice(a[k], b[k])
  }

  ghost predicate Agree(a: Stored, b: Stored) {
    && a.host == b.host && a.port == b.port && a.pin == b.pin
    && a.rendersettings == b.rendersettings && a.thisstagedeviceid == b.thisstagedeviceid
    && SameStage(a.stage, b.stage) && SameDevice(a.thisdevice, b.thisdevice)
  }

  lemma SameStageTransitive(a: map<byte, Device>, b: map<byte, Device>, c: map<byte, Device>)
    requires SameStage(a, b) && SameStage(b, c)
    ensures SameStage(a, c)
  {
    forall k | k in a ensures SameDevice(a[k], c[k]) {
      assert SameDevice(a[k], b[k]) && SameDevice(b[k], c[k]);
    }
  }

  // ---------- The comparisons ignore channel ids and nothing else ----------

  function Anonymous(d: Device): Device {
    d.(channels := seq(|d.channels|, k requires 0 <= k < |d.channels| => d.channels[k].(id := "")))
  }

  function AnonymousStage(stage: map<byte, Device>): map<byte, Device> {
    map k | k in stage :: Anonymous(stage[k])
  }

  lemma SameDeviceIff(a: Device, b: Device)
    ensures SameDevice(a, b) <==> Anonymous(a) == Anonymous(b)
  {
    var x, y := Anonymous(a), Anonymous(b);
    if x == y {
      assert |a.channels| == |x.channels| == |b.channels|;
      forall k | 0 <= k < |a.channels| ensures SameChannel(a.channels[k], b.channels[k]) {
        assert x.channels[k] == y.channels[k];
      }
      assert a.(channels := x.channels) == b.(channels := y.channels);
    }
    if SameDevice(a, b) {
      forall k | 0 <= k < |a.channels| ensures x.channels[k] == y.channels[k] {
        assert SameChannel(a.channels[k], b.channels[k]);
      }
      assert x.channels == y.channels;
    }
  }

  lemma SameStageIff(a: map<byte, Device>, b: map<byte, Device>)
    ensures SameStage(a, b) <==> AnonymousStage(a) == AnonymousStage(b)
  {
    hide SameDevice, Anonymous;
    var x, y := AnonymousStage(a), AnonymousStage(b);
    assert x.Keys == a.Keys && y.Keys == b.Keys;
    forall k | k in a && k in b ensures SameDevice(a[k], b[k]) <==> x[k] == y[k] {
      SameDeviceIff(a[k], b[k]);
    }
    if SameStage(a, b) {
      assert x == y;
    }
  }

  /** Settings agree exactly if they are equal once all channel ids are removed. */
  lemma AgreeIff(a: Stored, b: Stored)
    ensures Agree(a, b) <==>
            a.(stage := AnonymousStage(a.stage), thisdevice := Anonymous(a.thisdevice)) ==
            b.(stage := AnonymousStage(b.stage), thisdevice := Anonymous(b.thisdevice))
  {
    hide SameDevice, SameStage, Anonymous, AnonymousStage;
    SameDeviceIff(a.thisdevice, b.thisdevice);
    SameStageIff(a.stage, b.stage);
  }

  // ---------- The comparisons, as they run ----------

  /** `operator!=` on vectors of channels. */
  method ChannelsDiffer(a: seq<Channel>, b: seq<Channel>) returns (differ: bool)
    ensures differ <==> !SameChannels(a, b)
  {
    if |a| != |b| {
      return true;
    }
    for k := 0 to |a|
      invariant forall j :: 0 <= j < k ==> SameChannel(a[j], b[j])
    {
      if a[k].sourceport != b[k].sourceport || a[k].gain != b[k].gain || a[k].position != b[k].position ||
         a[k].directivity != b[k].directivity || a[k].name != b[k].name || a[k].plugins != b[k].plugins
      {
        assert !SameChannel(a[k], b[k]);
        return true;
      }
    }
    return false;
  }

  method DeviceDiffers(a: Device, b: Device) returns (differ: bool)
    ensures differ <==> !SameDevice(a, b)
  {
    var channelsDiffer := ChannelsDiffer(a.channels, b.channels);
    return a.id != b.id || a.uid != b.uid || a.devlabel != b.devlabel || channelsDiffer ||
           a.position != b.position || a.orientation != b.orientation || a.gain != b.gain ||
           a.mute != b.mute || a.senderjitter != b.senderjitter || a.receiverjitter != b.receiverjitter ||
           a.sendlocal != b.sendlocal || a.receivedownmix != b.receivedownmix ||
           a.senddownmix != b.senddownmix || a.nozita != b.nozita || a.hiresping != b.hiresping;
  }

  /** The keys from `k` on in the order a `std::map` is iterated. */
  function Ascending(keys: set<byte>, k: nat): seq<byte>
    decreases 0x100 - k
  {
    if k >= 0x100 then [] else (if k in keys then [k as byte] else []) + Ascending(keys, k + 1)
  }

  function From(keys: set<byte>, k: nat): set<byte> {
    set x | x in keys && k <= x
  }

  /** The iteration visits every key once. */
  lemma {:induction false} AscendingMembers(keys: set<byte>, k: nat)
    ensures forall x: byte :: x in Ascending(keys, k) <==> x in From(keys, k)
    ensures |Ascending(keys, k)| == |From(keys, k)|
    decreases 0x100 - k
  {
    if k >= 0x100 {
      assert From(keys, k) == {};
    } else {
      AscendingMembers(keys, k + 1);
      var more := From(keys, k + 1);
      if k in keys {
        assert From(keys, k) == more + {k as byte} && k !in more;
      } else {
        assert From(keys, k) == more;
      }
    }
  }

  /** `operator!=` on maps of devices: a walk over both maps in lock step. */
  method StageDiffers(a: map<byte, Device>, b: map<byte, Device>) returns (differ: bool)
    ensures differ <==> !SameStage(a, b)
  {
    hide Ascending, SameDevice;
    if |a| != |b| {
      assert a.Keys != b.Keys;
      return true;
    }
    var keysA, keysB := Ascending(a.Keys, 0), Ascending(b.Keys, 0);
    AscendingMembers(a.Keys, 0);
    AscendingMembers(b.Keys, 0);
    assert From(a.Keys, 0) == a.Keys && From(b.Keys, 0) == b.Keys;
    var i := 0;
    while i < |keysA| && i < |keysB|
      invariant i <= |keysA| == |keysB|
      invariant keysA[..i] == keysB[..i]
      invariant forall j :: 0 <= j < i ==> keysA[j] in a && keysA[j] in b && SameDevice(a[keysA[j]], b[keysA[j]])
    {
      assert keysA[i] in keysA && keysB[i] in keysB;
      if keysA[i] != keysB[i] {
        assert a.Keys != b.Keys;
        return true;
      }
      var valuesDiffer := DeviceDiffers(a[keysA[i]], b[keysB[i]]);
      if valuesDiffer {
        return true;
      }
      i := i + 1;
    }
    assert keysA == keysB;
    assert forall k :: k in a.Keys <==> k in b.Keys;
    forall k | k in a ensures SameDevice(a[k], b[k]) {
      assert k in keysA;
    }
    return false;
  }
}
