/** The in-place construction of the initial guest stack (src/runtime.c). */
module StackBuilder {
  import opened Words
  import opened StartupStack

  const GUEST_STACK_SIZE: nat := 1024 * 1024

  class Builder {
    const bytes: array<Byte>
    var cursor: nat

    constructor ()
      ensures Valid() && fresh(bytes) && bytes.Length == GUEST_STACK_SIZE && cursor == GUEST_STACK_SIZE
    {
      bytes := new Byte[GUEST_STACK_SIZE](_ => 0);
      cursor := GUEST_STACK_SIZE;
    }

    ghost predicate Valid()
      reads this
    {
      cursor <= bytes.Length
    }

    /** `memcpy` to an offset; nothing else changes. */
    method Copy(at: nat, data: seq<Byte>)
      requires at + |data| <= bytes.Length
      modifies bytes
      ensures bytes[..] == Stored(old(bytes[..]), at + |data|, data)
    {
      ghost var before := bytes[..];
      for i := 0 to |data|
        invariant bytes[..at] == before[..at]
        invariant bytes[at..at + i] == data[..i]
        invariant bytes[at + i..] == before[at + i..]
      {
        bytes[at + i] := data[i];
      }
      assert bytes[..] == bytes[..at] + bytes[at..at + |data|] + bytes[at + |data|..];
    }

    /** `push_bytes`. */
    method PushBytes(data: seq<Byte>) returns (ok: bool)
      requires Valid()
      modifies this, bytes
      ensures Valid()
      ensures ok <==> |data| <= old(cursor)
      ensures ok ==> cursor == old(cursor) - |data| && bytes[..] == Stored(old(bytes[..]), old(cursor), data)
      ensures !ok ==> cursor == old(cursor) && bytes[..] == old(bytes[..])
    {
      if |data| > cursor {
        return false;
      }
      cursor := cursor - |data|;
      Copy(cursor, data);
      return true;
    }

    /** The environment loop: entries that are passed on, first to last. */
    method PushEnvironment(environment: seq<Text>) returns (at: Option<seq<nat>>)
      requires Valid()
      modifies this, bytes
      ensures Valid()
      ensures var p := PushForward(old(bytes[..]), old(cursor), GuestEnvironment(environment));
              && (at.Some? <==> p.Some?)
              && (at.Some? ==> Pushed(bytes[..], cursor, at.value) == p.value)
    {
      hide Stored, Passed, GuestEnvironment, PushForward;
      var offsets: seq<nat> := [];
      ghost var mem, top := bytes[..], cursor;
      NoEnvironment(mem, top);
      assert environment[..0] == [];
      var i := 0;
      while i < |environment|
        invariant 0 <= i <= |environment| && Valid()
        invariant PushForward(mem, top, GuestEnvironment(environment[..i])) == Some(Pushed(bytes[..], cursor, offsets))
      {
        var entry := environment[i];
        EnvironmentStep(environment, i);
        if Passed(entry) {
          PushForwardStep(mem, top, GuestEnvironment(environment[..i]), entry);
          var ok := PushBytes(entry + [0]);
          if !ok {
            FailureSticks(mem, top, environment, i + 1);
            return None;
          }
          offsets := offsets + [cursor];
        }
        i := i + 1;
      }
      assert environment[..|environment|] == environment;
      return Some(offsets);
    }

    /** The argument loop: last to first. */
    method PushArguments(args: seq<Text>) returns (at: Option<seq<nat>>)
      requires Valid()
      modifies this, bytes
      ensures Valid()
      ensures var p := PushBackward(old(bytes[..]), old(cursor), args);
              && (at.Some? <==> p.Some?)
              && (at.Some? ==> Pushed(bytes[..], cursor, at.value) == p.value)
    {
      hide Stored, PushBackward;
      var offsets: seq<nat> := [];
      ghost var mem, top := bytes[..], cursor;
      NoArguments(mem, top);
      assert args[|args|..] == [];
      var i := |args|;
      while i != 0
        invariant 0 <= i <= |args| && Valid()
        invariant PushBackward(mem, top, args[i..]) == Some(Pushed(bytes[..], cursor, offsets))
      {
        PushBackwardStep(mem, top, args, i - 1);
        var ok := PushBytes(args[i - 1] + [0]);
        if !ok {
          BackwardFailureSticks(mem, top, args, i - 1);
          return None;
        }
        offsets := [cursor] + offsets;
        i := i - 1;
      }
      assert args[0..] == args;
      return Some(offsets);
    }

    /** Storing the vectors one word at a time. */
    method WriteWords(at: nat, words: seq<Word>)
      requires at + 4 * |words| <= bytes.Length
      modifies bytes
      ensures bytes[..] == Stored(old(bytes[..]), at + 4 * |words|, Flat(words))
    {
      hide WordBytes, Stored, Flat;
      ghost var before := bytes[..];
      NothingStored(before, at);
      for i := 0 to |words|
        invariant bytes[..] == Stored(before, at + 4 * i, Flat(words[..i]))
      {
        Copy(at + 4 * i, WordBytes(words[i]));
        FlatStep(words, i);
        StoredTwice(before, at, Flat(words[..i]), WordBytes(words[i]));
      }
      assert words[..|words|] == words;
    }

    /** `create_guest_stack` on the fresh mapping; None stands for the failure paths. */
    method Create(lower: Word, args: seq<Text>, environment: seq<Text>, random: seq<Byte>, info: Info)
      returns (sp: Option<nat>)
      requires Valid() && cursor == bytes.Length && |random| == 16
      modifies this, bytes
      ensures var s := StartupStack.Create(old(bytes[..]), lower, args, environment, random, info);
              && (sp.Some? <==> s.Some?)
              && (sp.Some? ==> Stack(bytes[..], sp.value) == s.value)
    {
      hide Stored, PushForward, PushBackward, GuestEnvironment, StackWords, Flat, HoldsAll;
      if args == [] {
        return None;
      }
      ghost var mem := bytes[..];
      PushForwardHolds(mem, |mem|, GuestEnvironment(environment));
      var environmentAt := PushEnvironment(environment);
      if environmentAt.None? {
        return None;
      }
      PushBackwardHolds(bytes[..], cursor, args);
      var at := PushArguments(args);
      if at.None? {
        return None;
      }
      cursor := Down16(cursor);
      var ok := PushBytes(random);
      if !ok {
        return None;
      }
      var words := StackWords(lower, environmentAt.value, at.value, cursor, info);
      if |words| > cursor / 4 {
        return None;
      }
      var start := Down16(cursor - 4 * |words|);
      WriteWords(start, words);
      return Some(start);
    }
  }

  // ----- lemmas for the loops

  lemma StoredTwice(mem: seq<Byte>, at: nat, front: seq<Byte>, back: seq<Byte>)
    requires at + |front| + |back| <= |mem|
    ensures Stored(Stored(mem, at + |front|, front), at + |front| + |back|, back)
         == Stored(mem, at + |front| + |back|, front + back)
  {
  }

  lemma NoEnvironment(mem: seq<Byte>, top: nat)
    requires top <= |mem|
    ensures GuestEnvironment([]) == [] && PushForward(mem, top, []) == Some(Pushed(mem, top, []))
  {
  }

  lemma NoArguments(mem: seq<Byte>, top: nat)
    requires top <= |mem|
    ensures PushBackward(mem, top, []) == Some(Pushed(mem, top, []))
  {
  }

  lemma PushBackwardStep(mem: seq<Byte>, top: nat, args: seq<Text>, i: nat)
    requires top <= |mem| && i < |args|
    ensures var p := PushBackward(mem, top, args[i + 1..]);
            PushBackward(mem, top, args[i..])
            == if p.None? || |args[i]| + 1 > p.value.cursor then None
               else
                 var at := p.value.cursor - |args[i]| - 1;
                 Some(Pushed(Stored(p.value.mem, p.value.cursor, args[i] + [0]), at, [at] + p.value.at))
  {
    assert args[i..][1..] == args[i + 1..];
  }

  lemma PushForwardStep(mem: seq<Byte>, top: nat, texts: seq<Text>, text: Text)
    requires top <= |mem|
    ensures var p := PushForward(mem, top, texts);
            PushForward(mem, top, texts + [text]) == if p.None? then None else PushText(p.value, text)
  {
    assert (texts + [text])[..|texts|] == texts;
  }

  lemma NothingStored(mem: seq<Byte>, at: nat)
    requires at <= |mem|
    ensures Stored(mem, at, Flat([])) == mem
  {
  }

  lemma FlatStep(words: seq<Word>, i: nat)
    requires i < |words|
    ensures Flat(words[..i + 1]) == Flat(words[..i]) + WordBytes(words[i])
  {
    assert words[..i + 1][..i] == words[..i];
  }

  lemma EnvironmentStep(environment: seq<Text>, i: nat)
    requires i < |environment|
    ensures GuestEnvironment(environment[..i + 1])
         == if Passed(environment[i]) then GuestEnvironment(environment[..i]) + [environment[i]]
            else GuestEnvironment(environment[..i])
  {
    assert environment[..i + 1][..i] == environment[..i];
  }

  /** Once an environment string has not fitted, no longer list fits. */
  lemma {:induction false} FailureSticks(mem: seq<Byte>, top: nat, environment: seq<Text>, i: nat)
    requires top <= |mem| && i <= |environment|
    requires PushForward(mem, top, GuestEnvironment(environment[..i])).None?
    ensures PushForward(mem, top, GuestEnvironment(environment)).None?
    decreases |environment| - i
  {
    hide Passed, PushText, GuestEnvironment, PushForward;
    if i == |environment| {
      assert environment[..i] == environment;
    } else {
      EnvironmentStep(environment, i);
      PushForwardStep(mem, top, GuestEnvironment(environment[..i]), environment[i]);
      FailureSticks(mem, top, environment, i + 1);
    }
  }

  lemma {:induction false} BackwardFailureSticks(mem: seq<Byte>, top: nat, args: seq<Text>, i: nat)
    requires top <= |mem| && i <= |args| && PushBackward(mem, top, args[i..]).None?
    ensures PushBackward(mem, top, args).None?
    decreases i
  {
    hide PushBackward;
    if i == 0 {
      assert args[0..] == args;
    } else {
      PushBackwardStep(mem, top, args, i - 1);
      BackwardFailureSticks(mem, top, args, i - 1);
    }
  }
}
