/** The keystroke decoder of handleFakeInterrupt: the bytes read from the
    terminal become player move requests ('w', 's', 'a', 'd'), requests for a
    new ghost (space) or the quit request ('q'); every other byte is ignored. */
module Keys {
  import opened Types

  const AddGhost: char := ' '
  const Quit: char := 'q'
  const UpCmd: char := 'w'
  const DownCmd: char := 's'
  const LeftCmd: char := 'a'
  const RightCmd: char := 'd'

  /** The move a key asks the player (id 0) to make, if it is a move key. */
  function KeyMove(key: char): (m: Option<Direction>)
    ensures m.Some? <==> key in {UpCmd, DownCmd, LeftCmd, RightCmd}
    ensures m.Some? ==> m.value != Noop
  {
    if key == UpCmd then Some(Up)
    else if key == DownCmd then Some(Down)
    else if key == LeftCmd then Some(Left)
    else if key == RightCmd then Some(Right)
    else None
  }

  /** What a run of keys amounts to: the player's move requests in order, the
      number of ghosts asked for, and whether a quit was read (after which no
      key is looked at). */
  datatype Keystrokes = Keystrokes(inputs: seq<Input>, ghostsAdded: nat, quit: bool)

  /** The decoding of `keys`, one key at a time from the first. */
  function Decode(keys: seq<char>): Keystrokes
    decreases |keys|
  {
    if keys == [] then Keystrokes([], 0, false)
    else
      var r := Decode(keys[..|keys| - 1]);
      var key := keys[|keys| - 1];
      if r.quit then r
      else if key == Quit then r.(quit := true)
      else if key == AddGhost then r.(ghostsAdded := r.ghostsAdded + 1)
      else if KeyMove(key).Some? then r.(inputs := r.inputs + [Input(0, KeyMove(key).value)])
      else r
  }

  /** The value handleFakeInterrupt returns for a decoding: -1 on quit, else the
      number of ghosts asked for. */
  function Outcome(r: Keystrokes): int {
    if r.quit then -1 else r.ghostsAdded
  }

  /** The decoding loop of handleFakeInterrupt over the bytes read: move requests
      are appended to `buf` as they are read, a quit returns at once. */
  method HandleKeys(keys: seq<char>, buf: seq<Input>) returns (result: int, bufOut: seq<Input>)
    ensures bufOut == buf + Decode(keys).inputs && result == Outcome(Decode(keys))
  {
    bufOut := buf;
    var ghostsAdded := 0;
    for i := 0 to |keys|
      invariant |buf| <= |bufOut| && bufOut == buf + bufOut[|buf|..]
      invariant Decode(keys[..i]) == Keystrokes(bufOut[|buf|..], ghostsAdded, false)
    {
      assert keys[..i + 1][..i] == keys[..i];
      var key := keys[i];
      if key == Quit {
        DecodeAfterQuit(keys, i + 1);
        return -1, bufOut;
      }
      var move := KeyMove(key);
      if move.Some? {
        assert (bufOut + [Input(0, move.value)])[|buf|..] == bufOut[|buf|..] + [Input(0, move.value)];
        bufOut := bufOut + [Input(0, move.value)];
      } else if key == AddGhost {
        ghostsAdded := ghostsAdded + 1;
      }
    }
    assert keys[..|keys|] == keys;
    result := ghostsAdded;
  }

  /** Once a quit is read, the keys after it change nothing. */
  lemma {:induction false} DecodeAfterQuit(keys: seq<char>, n: int)
    requires 0 <= n <= |keys| && Decode(keys[..n]).quit
    ensures Decode(keys) == Decode(keys[..n])
    decreases |keys| - n
  {
    if n < |keys| {
      assert keys[..n + 1][..n] == keys[..n];
      DecodeAfterQuit(keys, n + 1);
    } else {
      assert keys[..n] == keys;
    }
  }

  /** The first 'q' ends the decoding: the result is that of the keys before it,
      marked as a quit, whatever follows. */
  lemma DecodeStopsAtQuit(keys: seq<char>, j: int)
    requires 0 <= j < |keys| && keys[j] == Quit && Quit !in keys[..j]
    ensures Decode(keys) == Decode(keys[..j]).(quit := true)
  {
    var pre, upto := keys[..j], keys[..j + 1];
    DecodeCounts(pre);
    assert upto[..|upto| - 1] == pre && upto[|upto| - 1] == Quit;
    assert Decode(upto) == Decode(pre).(quit := true);
    DecodeAfterQuit(keys, j + 1);
  }

  /** Decoding two runs of keys one after the other: the second run counts only
      when the first has no quit. */
  function Then(a: Keystrokes, b: Keystrokes): Keystrokes {
    if a.quit then a else Keystrokes(a.inputs + b.inputs, a.ghostsAdded + b.ghostsAdded, b.quit)
  }

  lemma {:induction false} DecodeConcat(xs: seq<char>, ys: seq<char>)
    ensures Decode(xs + ys) == Then(Decode(xs), Decode(ys))
    decreases |ys|
  {
    if ys == [] {
      assert xs + ys == xs;
    } else {
      var ys' := ys[..|ys| - 1];
      assert (xs + ys)[..|xs + ys| - 1] == xs + ys';
      DecodeConcat(xs, ys');
    }
  }

  /** Without a quit, every move key yields one request of the player, every
      space one ghost, and nothing else counts. */
  lemma {:induction false} DecodeCounts(keys: seq<char>)
    requires Quit !in keys
    ensures !Decode(keys).quit
    ensures Decode(keys).ghostsAdded == multiset(keys)[AddGhost]
    ensures var ms := multiset(keys);
      |Decode(keys).inputs| == ms[UpCmd] + ms[DownCmd] + ms[LeftCmd] + ms[RightCmd]
    decreases |keys|
  {
    if keys != [] {
      var ks := keys[..|keys| - 1];
      assert keys == ks + [keys[|keys| - 1]];
      assert multiset(keys) == multiset(ks) + multiset{keys[|keys| - 1]};
      DecodeCounts(ks);
    }
  }

  /** Every request decoded is a move of the player (id 0), never NOOP, and the
      requests follow the move keys in the order they were typed. */
  lemma {:induction false} DecodeInputs(keys: seq<char>)
    ensures forall k :: 0 <= k < |Decode(keys).inputs| ==>
      Decode(keys).inputs[k].moverId == 0 && Decode(keys).inputs[k].dir != Noop
    ensures Quit !in keys ==> Decode(keys).inputs == MovesOf(keys)
    decreases |keys|
  {
    if keys != [] {
      var ks := keys[..|keys| - 1];
      assert keys == ks + [keys[|keys| - 1]];
      DecodeInputs(ks);
      if Quit !in keys {
        assert Quit !in ks;
        DecodeCounts(ks);
        MovesOfSnoc(ks, keys[|keys| - 1]);
      }
    }
  }

  lemma {:induction false} MovesOfSnoc(ks: seq<char>, c: char)
    ensures MovesOf(ks + [c]) == MovesOf(ks) + MovesOf([c])
    decreases |ks|
  {
    if ks != [] {
      assert (ks + [c])[1..] == ks[1..] + [c];
      MovesOfSnoc(ks[1..], c);
    } else {
      assert ks + [c] == [c];
    }
  }

  /** The move keys of `keys`, as requests of the player, in order. */
  function MovesOf(keys: seq<char>): seq<Input>
    decreases |keys|
  {
    if keys == [] then []
    else
      var m := KeyMove(keys[0]);
      (if m.Some? then [Input(0, m.value)] else []) + MovesOf(keys[1..])
  }
}
