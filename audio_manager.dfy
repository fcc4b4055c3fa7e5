/** btn::audio_manager: a queue of audio commands recorded during the frame
    and executed in order by `Commit`, in front of the music state flags.
    `fixed` arguments are raw values with `FixedPoints.Precision` fractional bits. */
module AudioManager {
  import opened Wrappers
  import opened FixedPoints

  const Int16Min: int := -32768
  const Int16Max: int := 32767

  /** Narrowing conversions of the command constructor. */
  function ToInt16(v: int): int {
    (v + 32768) % 65536 - 32768
  }

  function ToUint16(v: int): int {
    v % 65536
  }

  function ToUint8(v: int): int {
    v % 256
  }

  /** `fixed_t<bits>(v).data()` for a fixed v: the raw value shifted right
      (rounding toward minus infinity) to the target precision. */
  function ToPrecision(raw: int, bits: nat): int
    requires bits <= Precision
  {
    raw / Pow2(Precision - bits)
  }

  function Pow2(n: nat): (r: nat)
    ensures r >= 1
  {
    if n == 0 then 1 else 2 * Pow2(n - 1)
  }

  /** The precision conversion is a floor shift: the result is the largest q
      with q * 2^(12 - bits) <= raw, so it never rounds up and loses less
      than one unit of the target precision. */
  lemma {:induction false} ToPrecisionIsFloorShift(raw: int, bits: nat)
    requires bits <= Precision
    ensures var q, d := ToPrecision(raw, bits), Pow2(Precision - bits);
            q * d <= raw < q * d + d
    ensures 0 <= raw ==> 0 <= ToPrecision(raw, bits) <= raw
  {
    var d := Pow2(Precision - bits);
    var q := raw / d;
    assert ToPrecision(raw, bits) == q;
    assert q * d <= raw < q * d + d by {
      FloorDivBounds(raw, d);
    }
    if 0 <= raw {
      FloorQuotientBounds(raw, q, d);
    }
  }

  /** Euclidean division rounds toward minus infinity. */
  lemma {:induction false} FloorDivBounds(raw: int, d: int)
    requires d > 0
    ensures (raw / d) * d <= raw < (raw / d) * d + d
  {
    assert raw == d * (raw / d) + raw % d;
    assert 0 <= raw % d < d;
  }

  /** A floor quotient of a natural by a positive divisor lies between 0 and
      the natural. */
  lemma {:induction false} FloorQuotientBounds(raw: int, q: int, d: int)
    requires d > 0 && 0 <= raw && q * d <= raw < q * d + d
    ensures 0 <= q <= raw
  {
    assert (q + 1) * d == q * d + d;
    SignOfProduct(q + 1, d);
    if q > 0 {
      SignOfProduct(q, d);
    }
  }

  /** With a positive factor d, a * d is positive only for a positive a, and
      then it is at least a. */
  lemma SignOfProduct(a: int, d: int)
    requires d > 0
    ensures a * d > 0 ==> a > 0
    ensures a > 0 ==> a <= a * d
  {
  }

  lemma ShiftDivisors()
    ensures Pow2(2) == 4 && Pow2(4) == 16 && Pow2(5) == 32
  {
    assert Pow2(1) == 2 && Pow2(3) == 8;
  }

  /** _hw_music_volume: the music volume at 10 fractional bits. */
  function HwMusicVolume(volume: int): (r: int)
    requires 0 <= volume <= Scale
    ensures 0 <= r <= 1024
    ensures r == volume / 4
  {
    ShiftDivisors();
    ToPrecision(volume, 10)
  }

  /** _hw_sound_volume: 8 fractional bits, clamped to 255. */
  function HwSoundVolume(volume: int): (r: int)
    ensures r <= 255
    ensures 0 <= volume ==> 0 <= r
    ensures r == 255 || r == volume / 16
  {
    ShiftDivisors();
    Min(ToPrecision(volume, 8), 255)
  }

  /** _hw_sound_speed: 10 fractional bits, clamped to 65535. */
  function HwSoundSpeed(speed: int): (r: int)
    ensures r <= 65535
    ensures 0 <= speed ==> 0 <= r
    ensures r == 65535 || r == speed / 4
  {
    ShiftDivisors();
    Min(ToPrecision(speed, 10), 65535)
  }

  /** _hw_sound_panning: panning + 1 at 7 fractional bits, clamped to 255. */
  function HwSoundPanning(panning: int): (r: int)
    ensures r <= 255
    ensures -Scale <= panning ==> 0 <= r
    ensures r == 255 || r == (panning + Scale) / 32
  {
    ShiftDivisors();
    Min(ToPrecision(panning + Scale, 7), 255)
  }

  /** Within the asserted argument ranges the clamps only cut the single top
      value: below it the conversions are exact, and every result fits the
      command field it is stored in. */
  lemma {:induction false} ClampsOnlyCutTheTop(volume: int, speed: int, panning: int)
    requires 0 <= volume <= Scale && 0 <= speed <= 64 * Scale && -Scale <= panning <= Scale
    ensures volume < Scale ==> HwSoundVolume(volume) == volume / 16
    ensures speed < 64 * Scale ==> HwSoundSpeed(speed) == speed / 4
    ensures panning < Scale ==> HwSoundPanning(panning) == (panning + Scale) / 32
    ensures ToUint16(HwSoundVolume(volume)) == HwSoundVolume(volume)
    ensures ToUint16(HwSoundSpeed(speed)) == HwSoundSpeed(speed)
    ensures ToUint8(HwSoundPanning(panning)) == HwSoundPanning(panning)
  {
    ShiftDivisors();
  }

  datatype Kind =
    | MusicPlay | MusicStop | MusicPause | MusicResume | MusicSetPosition
    | MusicSetVolume | SoundPlay | SoundPlayEx | SoundStopAll

  /** The packed command: `id` also carries the position of MusicSetPosition. */
  datatype Command = Command(kind: Kind, id: int, priority: int, volume: int, loop: bool,
                             speed: int, panning: int)

  /** command(type, id, priority, volume, loop, speed, panning), with the
      narrowing of each field to its storage width. */
  function Pack(kind: Kind, id: int, priority: int, volume: int, loop: bool, speed: int,
                panning: int): (c: Command)
    ensures c.kind == kind && c.id == id && c.loop == loop
    // every field fits its storage type
    ensures Int16Min <= c.priority <= Int16Max
    ensures 0 <= c.volume < 65536 && 0 <= c.speed < 65536 && 0 <= c.panning < 256
    // a value that already fits is stored unchanged
    ensures Int16Min <= priority <= Int16Max ==> c.priority == priority
    ensures 0 <= volume < 65536 ==> c.volume == volume
    ensures 0 <= speed < 65536 ==> c.speed == speed
    ensures 0 <= panning < 256 ==> c.panning == panning
  {
    Command(kind, id, ToInt16(priority), ToUint16(volume), loop, ToUint16(speed), ToUint8(panning))
  }

  function MusicPlayCommand(item: int, loop: bool, volume: int): Command {
    Pack(MusicPlay, item, 0, volume, loop, 0, 0)
  }

  function MusicSetPositionCommand(position: int): Command {
    Pack(MusicSetPosition, position, 0, 0, false, 0, 0)
  }

  function MusicSetVolumeCommand(volume: int): Command {
    Pack(MusicSetVolume, 0, 0, volume, false, 0, 0)
  }

  function SoundPlayCommand(priority: int, item: int): Command {
    Pack(SoundPlay, item, priority, 0, false, 0, 0)
  }

  function SoundPlayExCommand(priority: int, item: int, volume: int, speed: int, panning: int): Command {
    Pack(SoundPlayEx, item, priority, volume, false, speed, panning)
  }

  function SimpleCommand(kind: Kind): Command {
    Pack(kind, 0, 0, 0, false, 0, 0)
  }

  /** hw::audio calls, the output of the manager. */
  datatype HwCall =
    | HwCommit
    | PlayMusic(item: int, volume: int, loop: bool)
    | StopMusic
    | PauseMusic
    | ResumeMusic
    | SetMusicPosition(position: int)
    | SetMusicVolume(volume: int)
    | PlaySound(priority: int, item: int)
    | PlaySoundEx(priority: int, item: int, volume: int, speed: int, panning: int)
    | StopAllSounds

  /** command::execute: the hw::audio call of the command's type, with the
      fields that type uses; no command is a commit. */
  function Execute(c: Command): (call: HwCall)
    ensures !call.HwCommit?
    ensures call.PlayMusic? <==> c.kind == MusicPlay
    ensures call.StopMusic? <==> c.kind == MusicStop
    ensures call.PauseMusic? <==> c.kind == MusicPause
    ensures call.ResumeMusic? <==> c.kind == MusicResume
    ensures call.SetMusicPosition? <==> c.kind == MusicSetPosition
    ensures call.SetMusicVolume? <==> c.kind == MusicSetVolume
    ensures call.PlaySound? <==> c.kind == SoundPlay
    ensures call.PlaySoundEx? <==> c.kind == SoundPlayEx
    ensures call.StopAllSounds? <==> c.kind == SoundStopAll
  {
    match c.kind
    case MusicPlay => PlayMusic(c.id, c.volume, c.loop)
    case MusicStop => StopMusic
    case MusicPause => PauseMusic
    case MusicResume => ResumeMusic
    case MusicSetPosition => SetMusicPosition(c.id)
    case MusicSetVolume => SetMusicVolume(c.volume)
    case SoundPlay => PlaySound(c.priority, c.id)
    case SoundPlayEx => PlaySoundEx(c.priority, c.id, c.volume, c.speed, c.panning)
    case SoundStopAll => StopAllSounds
  }

  function ExecuteAll(cs: seq<Command>): (calls: seq<HwCall>)
    ensures |calls| == |cs|
    ensures forall i :: 0 <= i < |cs| ==> calls[i] == Execute(cs[i])
  {
    if cs == [] then [] else ExecuteAll(cs[..|cs| - 1]) + [Execute(cs[|cs| - 1])]
  }

  /** A command built from arguments in their asserted ranges executes the
      hardware call it was built for: the packing loses nothing. */
  lemma {:induction false} PackedCommandsRoundTrip(priority: int, item: int, volume: int, speed: int,
                                                   panning: int, musicVolume: int, loop: bool)
    requires Int16Min <= priority <= Int16Max
    requires 0 <= volume <= Scale && 0 <= speed <= 64 * Scale && -Scale <= panning <= Scale
    requires 0 <= musicVolume <= Scale
    ensures Execute(MusicPlayCommand(item, loop, HwMusicVolume(musicVolume)))
         == PlayMusic(item, HwMusicVolume(musicVolume), loop)
    ensures Execute(MusicSetVolumeCommand(HwMusicVolume(musicVolume)))
         == SetMusicVolume(HwMusicVolume(musicVolume))
    ensures Execute(SoundPlayCommand(priority, item)) == PlaySound(priority, item)
    ensures Execute(SoundPlayExCommand(priority, item, HwSoundVolume(volume), HwSoundSpeed(speed),
                                       HwSoundPanning(panning)))
         == PlaySoundEx(priority, item, HwSoundVolume(volume), HwSoundSpeed(speed), HwSoundPanning(panning))
  {
    ClampsOnlyCutTheTop(volume, speed, panning);
    assert ToInt16(priority) == priority;
    assert ToUint16(HwMusicVolume(musicVolume)) == HwMusicVolume(musicVolume);
  }

  /** The audio manager's static data. */
  class Manager {
    /** BTN_CFG_AUDIO_MAX_COMMANDS */
    const maxCommands: nat
    var commands: seq<Command>
    var musicVolume: int
    var musicPosition: int
    var musicPlaying: bool
    var musicPaused: bool
    /** The hw::audio calls made so far. */
    var hwCalls: seq<HwCall>

    ghost predicate Valid()
      reads this
    {
      && maxCommands > 2
      && |commands| <= maxCommands
      && 0 <= musicVolume <= Scale
      && (musicPaused ==> musicPlaying)
    }

    constructor (maxCommands: nat)
      requires maxCommands > 2
      ensures Valid()
      ensures this.maxCommands == maxCommands
      ensures commands == [] && hwCalls == []
      ensures musicVolume == 0 && musicPosition == 0 && !musicPlaying && !musicPaused
    {
      this.maxCommands := maxCommands;
      commands := [];
      musicVolume := 0;
      musicPosition := 0;
      musicPlaying := false;
      musicPaused := false;
      hwCalls := [];
    }

    predicate Full()
      reads this
    {
      |commands| >= maxCommands
    }

    /** music_position(): the stored position, only while music is playing. */
    function MusicPosition(): int
      reads this
      requires musicPlaying
    {
      musicPosition
    }

    /** music_volume(): the stored volume, only while music is playing. */
    function MusicVolume(): int
      reads this
      requires musicPlaying
    {
      musicVolume
    }

    method PlayMusic(item: int, volume: int, loop: bool)
      requires Valid()
      requires 0 <= volume <= Scale
      requires !Full()
      modifies this
      ensures Valid()
      ensures commands == old(commands) + [MusicPlayCommand(item, loop, HwMusicVolume(volume))]
      ensures musicPlaying && !musicPaused && MusicVolume() == volume
      ensures musicPosition == old(musicPosition) && hwCalls == old(hwCalls)
    {
      commands := commands + [MusicPlayCommand(item, loop, HwMusicVolume(volume))];
      musicVolume := volume;
      musicPlaying := true;
      musicPaused := false;
    }

    method StopMusic()
      requires Valid()
      requires musicPlaying
      requires !Full()
      modifies this
      ensures Valid()
      ensures commands == old(commands) + [SimpleCommand(MusicStop)]
      ensures !musicPlaying && !musicPaused
      ensures musicVolume == old(musicVolume) && musicPosition == old(musicPosition)
      ensures hwCalls == old(hwCalls)
    {
      commands := commands + [SimpleCommand(MusicStop)];
      musicPlaying := false;
      musicPaused := false;
    }

    method PauseMusic()
      requires Valid()
      requires musicPlaying && !musicPaused
      requires !Full()
      modifies this
      ensures Valid()
      ensures commands == old(commands) + [SimpleCommand(MusicPause)]
      ensures musicPlaying && musicPaused
      ensures musicVolume == old(musicVolume) && musicPosition == old(musicPosition)
      ensures hwCalls == old(hwCalls)
    {
      commands := commands + [SimpleCommand(MusicPause)];
      musicPaused := true;
    }

    method ResumeMusic()
      requires Valid()
      requires musicPaused
      requires !Full()
      modifies this
      ensures Valid()
      ensures commands == old(commands) + [SimpleCommand(MusicResume)]
      ensures musicPlaying && !musicPaused
      ensures musicVolume == old(musicVolume) && musicPosition == old(musicPosition)
      ensures hwCalls == old(hwCalls)
    {
      commands := commands + [SimpleCommand(MusicResume)];
      musicPaused := false;
    }

    method SetMusicPosition(position: int)
      requires Valid()
      requires position >= 0 && musicPlaying
      requires !Full()
      modifies this
      ensures Valid()
      ensures commands == old(commands) + [MusicSetPositionCommand(position)]
      ensures musicPlaying == old(musicPlaying) && musicPaused == old(musicPaused)
      ensures MusicPosition() == position
      ensures musicVolume == old(musicVolume) && hwCalls == old(hwCalls)
    {
      commands := commands + [MusicSetPositionCommand(position)];
      musicPosition := position;
    }

    method SetMusicVolume(volume: int)
      requires Valid()
      requires 0 <= volume <= Scale && musicPlaying
      requires !Full()
      modifies this
      ensures Valid()
      ensures commands == old(commands) + [MusicSetVolumeCommand(HwMusicVolume(volume))]
      ensures musicPlaying == old(musicPlaying) && musicPaused == old(musicPaused)
      ensures MusicVolume() == volume
      ensures musicPosition == old(musicPosition) && hwCalls == old(hwCalls)
    {
      commands := commands + [MusicSetVolumeCommand(HwMusicVolume(volume))];
      musicVolume := volume;
    }

    method PlaySound(priority: int, item: int)
      requires Valid()
      requires Int16Min <= priority <= Int16Max
      requires !Full()
      modifies this
      ensures Valid()
      ensures commands == old(commands) + [SoundPlayCommand(priority, item)]
      ensures musicPlaying == old(musicPlaying) && musicPaused == old(musicPaused)
      ensures musicVolume == old(musicVolume) && musicPosition == old(musicPosition)
      ensures hwCalls == old(hwCalls)
    {
      commands := commands + [SoundPlayCommand(priority, item)];
    }

    method PlaySoundEx(priority: int, item: int, volume: int, speed: int, panning: int)
      requires Valid()
      requires Int16Min <= priority <= Int16Max
      requires 0 <= volume <= Scale && 0 <= speed <= 64 * Scale && -Scale <= panning <= Scale
      requires !Full()
      modifies this
      ensures Valid()
      ensures commands == old(commands) + [SoundPlayExCommand(priority, item, HwSoundVolume(volume),
                                                               HwSoundSpeed(speed), HwSoundPanning(panning))]
      ensures musicPlaying == old(musicPlaying) && musicPaused == old(musicPaused)
      ensures musicVolume == old(musicVolume) && musicPosition == old(musicPosition)
      ensures hwCalls == old(hwCalls)
    {
      commands := commands + [SoundPlayExCommand(priority, item, HwSoundVolume(volume),
                                                 HwSoundSpeed(speed), HwSoundPanning(panning))];
    }

    method StopAllSounds()
      requires Valid()
      requires !Full()
      modifies this
      ensures Valid()
      ensures commands == old(commands) + [SimpleCommand(SoundStopAll)]
      ensures musicPlaying == old(musicPlaying) && musicPaused == old(musicPaused)
      ensures musicVolume == old(musicVolume) && musicPosition == old(musicPosition)
      ensures hwCalls == old(hwCalls)
    {
      commands := commands + [SimpleCommand(SoundStopAll)];
    }

    /** commit(): hw::audio::commit, then every queued command in push order;
        the queue is left empty. `hwMusicPlaying` and `hwMusicPosition` are
        what hw::audio reports after the commands ran. */
    method Commit(hwMusicPlaying: bool, hwMusicPosition: int)
      requires Valid()
      modifies this
      ensures Valid()
      ensures hwCalls == old(hwCalls) + [HwCommit] + ExecuteAll(old(commands))
      ensures commands == []
      ensures musicPosition == if old(musicPlaying) && hwMusicPlaying then hwMusicPosition
                               else old(musicPosition)
      ensures musicPlaying == old(musicPlaying) && musicPaused == old(musicPaused)
      ensures musicVolume == old(musicVolume)
    {
      var calls := hwCalls + [HwCommit];
      var i := 0;
      while i < |commands|
        invariant 0 <= i <= |commands|
        invariant calls == old(hwCalls) + [HwCommit] + ExecuteAll(commands[..i])
      {
        assert commands[..i + 1][..i] == commands[..i];
        calls := calls + [Execute(commands[i])];
        i := i + 1;
      }
      assert commands[..i] == commands;
      hwCalls := calls;
      commands := [];
      if musicPlaying && hwMusicPlaying {
        musicPosition := hwMusicPosition;
      }
    }

    /** stop(): drops the queued commands, then queues a music stop if music
        is playing and a stop of every sound. */
    method Stop()
      requires Valid()
      modifies this
      ensures Valid()
      ensures commands == (if old(musicPlaying) then [SimpleCommand(MusicStop)] else [])
                          + [SimpleCommand(SoundStopAll)]
      ensures |commands| <= 2 < maxCommands
      ensures !musicPlaying && !musicPaused
      ensures musicVolume == old(musicVolume) && musicPosition == old(musicPosition)
      ensures hwCalls == old(hwCalls)
    {
      commands := [];
      if musicPlaying {
        StopMusic();
      }
      StopAllSounds();
    }
  }
}
