/** The sound effects table of engine/audio.cpp: loading sounds under
    aliases, sharing one resource between aliases of the same file, and
    staggering the sounds played during one frame. The audio library
    itself is not modelled: a resource is its position in load order, and
    playing a sound is the start time and resource it is given. */
module Audio {
  import opened Bytes

  /** `SoundEffects`: `wavs` lists, in load order, the file each resource
      was loaded from (a resource is its index); `loaded` is
      `loadedResources` and `aliases` is `aliasMap`. */
  datatype SoundTable = SoundTable(wavs: seq<string>, loaded: map<string, nat>, aliases: map<string, nat>)

  /** Every file maps to the resource loaded from it, every resource is
      registered under its file, and every alias names a resource. */
  ghost predicate Valid(t: SoundTable)
  {
    (forall f :: f in t.loaded ==> t.loaded[f] < |t.wavs| && t.wavs[t.loaded[f]] == f) &&
    (forall i :: 0 <= i < |t.wavs| ==> t.wavs[i] in t.loaded && t.loaded[t.wavs[i]] == i) &&
    (forall a :: a in t.aliases ==> t.aliases[a] < |t.wavs|)
  }

  function EmptyTable(): (t: SoundTable)
    ensures Valid(t) && |t.wavs| == 0 && |t.aliases| == 0
  {
    SoundTable([], map[], map[])
  }

  /** The file an alias plays. */
  function FileOf(t: SoundTable, alias: string): (f: string)
    requires Valid(t) && alias in t.aliases
    ensures f in t.loaded && t.loaded[f] == t.aliases[alias]
  {
    t.wavs[t.aliases[alias]]
  }

  /** `LoadSound`: a known alias is left alone; a known file gets the new
      alias pointing at its resource; a new file is loaded once and
      registered under both the file and the alias. */
  function LoadSound(t: SoundTable, file: string, alias: string): (r: SoundTable)
    ensures alias in t.aliases ==> r == t
    ensures Valid(t) ==> Valid(r)
    ensures Valid(t) && alias !in t.aliases ==> alias in r.aliases && FileOf(r, alias) == file
    ensures r.aliases.Keys == t.aliases.Keys + {alias}
    ensures forall a :: a in t.aliases ==> r.aliases[a] == t.aliases[a]
    ensures |r.wavs| == |t.wavs| + (if alias !in t.aliases && file !in t.loaded then 1 else 0)
    ensures r.wavs[..|t.wavs|] == t.wavs
    ensures forall f :: f in t.loaded ==> f in r.loaded && r.loaded[f] == t.loaded[f]
  {
    if alias in t.aliases then t
    else if file in t.loaded then t.(aliases := t.aliases[alias := t.loaded[file]])
    else
      var wav := |t.wavs|;
      SoundTable(t.wavs + [file], t.loaded[file := wav], t.aliases[alias := wav])
  }

  /** Loading a second alias for a file already loaded shares the
      resource instead of creating one. */
  lemma SharedResource(t: SoundTable, file: string, alias1: string, alias2: string)
    requires Valid(t) && alias1 !in t.aliases && alias2 !in t.aliases && alias1 != alias2
    ensures var r := LoadSound(LoadSound(t, file, alias1), file, alias2);
            r.aliases[alias1] == r.aliases[alias2] && |r.wavs| <= |t.wavs| + 1
  {
  }

  /** The elements of a sequence. */
  function Elements(s: seq<string>): (e: set<string>)
    ensures forall i :: 0 <= i < |s| ==> s[i] in e
    ensures forall x :: x in e ==> exists i :: 0 <= i < |s| && s[i] == x
  {
    if |s| == 0 then {} else Elements(s[..|s| - 1]) + {s[|s| - 1]}
  }

  ghost predicate Distinct(s: seq<string>)
  {
    forall i, j :: 0 <= i < j < |s| ==> s[i] != s[j]
  }

  lemma {:induction false} DistinctCount(s: seq<string>)
    requires Distinct(s)
    ensures |Elements(s)| == |s|
  {
    if |s| > 0 {
      var p := s[..|s| - 1];
      assert Distinct(p);
      DistinctCount(p);
      assert s[|s| - 1] !in Elements(p);
    }
  }

  /** There are exactly as many resources as distinct files loaded. */
  lemma OneResourcePerFile(t: SoundTable)
    requires Valid(t)
    ensures |t.loaded.Keys| == |t.wavs|
  {
    ValidDistinct(t);
    DistinctCount(t.wavs);
    LoadedAreElements(t);
  }

  /** No file is loaded twice. */
  lemma ValidDistinct(t: SoundTable)
    requires Valid(t)
    ensures Distinct(t.wavs)
  {
    forall i, j | 0 <= i < j < |t.wavs| ensures t.wavs[i] != t.wavs[j] {
      assert t.loaded[t.wavs[i]] == i && t.loaded[t.wavs[j]] == j;
    }
  }

  /** The loaded files are exactly the files of the resources. */
  lemma LoadedAreElements(t: SoundTable)
    requires Valid(t)
    ensures t.loaded.Keys == Elements(t.wavs)
  {
    forall f | f in t.loaded ensures f in Elements(t.wavs) {
      assert t.wavs[t.loaded[f]] == f;
    }
  }

  /** `LoadFromDef`: every (alias, file) entry of the definition table, in
      the order the table is walked. */
  function LoadAll(t: SoundTable, entries: seq<(string, string)>): (r: SoundTable)
    ensures Valid(t) ==> Valid(r)
    decreases |entries|
  {
    if |entries| == 0 then t else LoadAll(LoadSound(t, entries[0].1, entries[0].0), entries[1..])
  }

  /** The file of the first entry with the given alias. */
  function FirstFile(entries: seq<(string, string)>, alias: string): (f: Option<string>)
    ensures f.None? <==> forall i :: 0 <= i < |entries| ==> entries[i].0 != alias
    decreases |entries|
  {
    if |entries| == 0 then None
    else if entries[0].0 == alias then Some(entries[0].1)
    else FirstFile(entries[1..], alias)
  }

  /** Aliases defined before stay as they were, and a new alias plays the
      file of its first entry: later entries with the same alias are
      ignored. */
  lemma {:induction false} FirstEntryWins(t: SoundTable, entries: seq<(string, string)>, alias: string)
    requires Valid(t)
    ensures var r := LoadAll(t, entries);
            alias in t.aliases ==> alias in r.aliases && r.aliases[alias] == t.aliases[alias]
    ensures var r := LoadAll(t, entries);
            alias !in t.aliases && FirstFile(entries, alias).Some? ==>
              alias in r.aliases && FileOf(r, alias) == FirstFile(entries, alias).value
    ensures var r := LoadAll(t, entries);
            alias !in t.aliases && FirstFile(entries, alias).None? ==> alias !in r.aliases
    decreases |entries|
  {
    if |entries| > 0 {
      var u := LoadSound(t, entries[0].1, entries[0].0);
      FirstEntryWins(u, entries[1..], alias);
      if alias !in t.aliases && entries[0].0 == alias {
        var r := LoadAll(t, entries);
        assert FileOf(u, alias) == entries[0].1;
        assert r.aliases[alias] == u.aliases[alias];
        ResourceStays(u, entries[1..], u.aliases[alias]);
      }
    }
  }

  /** Loading more sounds never changes which file a resource holds. */
  lemma {:induction false} ResourceStays(t: SoundTable, entries: seq<(string, string)>, wav: nat)
    requires Valid(t) && wav < |t.wavs|
    ensures var r := LoadAll(t, entries); wav < |r.wavs| && r.wavs[wav] == t.wavs[wav]
    decreases |entries|
  {
    if |entries| > 0 {
      var u := LoadSound(t, entries[0].1, entries[0].0);
      assert u.wavs[wav] == u.wavs[..|t.wavs|][wav];
      ResourceStays(u, entries[1..], wav);
    }
  }

  // ---------------------------------------------------------------------
  // PlaySound

  /** The per-frame stagger: `lastGameTime` and the number of sounds
      requested during that frame, of which `offset` is a fixed multiple.
      Both start out uninitialised, so any value is a possible start. */
  datatype Clock = Clock(lastGameTime: int, calls: nat)

  /** Seconds between two sounds requested in the same frame. */
  const OFFSET_STEP: real := 0.005
  /** Frames per second of the game clock. */
  const FRAME_RATE: real := 60.0

  /** A sound scheduled with the library: when it starts (seconds on the
      game clock) and the resource it plays. */
  datatype Scheduled = Scheduled(start: real, wav: nat)

  datatype Played = Played(clock: Clock, sound: Option<Scheduled>)

  /** `PlaySound`: a new frame resets the stagger; a known alias is
      scheduled at the frame's time plus the stagger; the stagger grows by
      one step on every call, known alias or not. */
  function PlaySound(t: SoundTable, c: Clock, gameTime: int, alias: string): (p: Played)
    ensures p.clock.lastGameTime == gameTime
    ensures c.lastGameTime != gameTime ==> p.clock.calls == 1
    ensures c.lastGameTime == gameTime ==> p.clock.calls == c.calls + 1
    ensures p.sound.Some? <==> alias in t.aliases
    ensures p.sound.Some? ==>
      p.sound.value.wav == t.aliases[alias] &&
      p.sound.value.start == gameTime as real / FRAME_RATE + OFFSET_STEP * ((p.clock.calls - 1) as real)
  {
    var calls := if c.lastGameTime != gameTime then 0 else c.calls;
    var sound := if alias in t.aliases
      then Some(Scheduled(gameTime as real / FRAME_RATE + OFFSET_STEP * (calls as real), t.aliases[alias]))
      else None;
    Played(Clock(gameTime, calls + 1), sound)
  }

  /** Several calls during one frame: the stagger slot each call used. */
  function Burst(t: SoundTable, c: Clock, gameTime: int, aliases: seq<string>): (r: (Clock, seq<nat>))
    ensures |r.1| == |aliases|
    decreases |aliases|
  {
    if |aliases| == 0 then (c, [])
    else
      var p := PlaySound(t, c, gameTime, aliases[0]);
      var rest := Burst(t, p.clock, gameTime, aliases[1..]);
      (rest.0, [p.clock.calls - 1] + rest.1)
  }

  /** In one frame the calls take consecutive slots: the first call of a
      new frame takes slot 0, and no two sounds of a frame start together. */
  lemma {:induction false} BurstSlots(t: SoundTable, c: Clock, gameTime: int, aliases: seq<string>)
    ensures var base := if c.lastGameTime == gameTime then c.calls else 0;
            var r := Burst(t, c, gameTime, aliases);
            (forall i :: 0 <= i < |aliases| ==> r.1[i] == base + i) &&
            (|aliases| > 0 ==> r.0 == Clock(gameTime, base + |aliases|))
    decreases |aliases|
  {
    if |aliases| > 0 {
      var p := PlaySound(t, c, gameTime, aliases[0]);
      BurstSlots(t, p.clock, gameTime, aliases[1..]);
    }
  }
}
