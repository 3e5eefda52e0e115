/**
  The initial guest stack (src/runtime.c): strings, random bytes and the argument, environment and
  auxiliary vectors, together with the reader a starting Linux program applies to them.
 */
module StartupStack {
  import opened Words

  type Byte = b: int | 0 <= b < 256

  /** A C string without its terminator. */
  type Text = seq<Byte>

  predicate IsText(t: Text) {
    forall i :: 0 <= i < |t| ==> t[i] != 0
  }

  predicate AllTexts(texts: seq<Text>) {
    forall i :: 0 <= i < |texts| ==> IsText(texts[i])
  }

  // ----- strings

  /** `push_bytes` with room: the bytes go directly below the cursor. Offsets count from the lower bound. */
  function Stored(mem: seq<Byte>, cursor: nat, data: seq<Byte>): (r: seq<Byte>)
    requires |data| <= cursor <= |mem|
    ensures |r| == |mem|
  {
    mem[..cursor - |data|] + data + mem[cursor..]
  }

  datatype Pushed = Pushed(mem: seq<Byte>, cursor: nat, at: seq<nat>)

  function PushText(p: Pushed, text: Text): Option<Pushed>
    requires p.cursor <= |p.mem|
  {
    if |text| + 1 > p.cursor then None
    else Some(Pushed(Stored(p.mem, p.cursor, text + [0]), p.cursor - |text| - 1, p.at + [p.cursor - |text| - 1]))
  }

  /** Strings pushed first to last (the environment). */
  function PushForward(mem: seq<Byte>, cursor: nat, texts: seq<Text>): (r: Option<Pushed>)
    requires cursor <= |mem|
    ensures r.Some? ==> |r.value.mem| == |mem| && r.value.cursor <= cursor
  {
    if texts == [] then Some(Pushed(mem, cursor, []))
    else
      var p := PushForward(mem, cursor, texts[..|texts| - 1]);
      if p.None? then None else PushText(p.value, texts[|texts| - 1])
  }

  /** Strings pushed last to first (the arguments). */
  function PushBackward(mem: seq<Byte>, cursor: nat, texts: seq<Text>): (r: Option<Pushed>)
    requires cursor <= |mem|
    ensures r.Some? ==> |r.value.mem| == |mem| && r.value.cursor <= cursor
  {
    if texts == [] then Some(Pushed(mem, cursor, []))
    else
      var p := PushBackward(mem, cursor, texts[1..]);
      if p.None? then None
      else
        var q := PushText(p.value, texts[0]);
        if q.None? then None else Some(q.value.(at := [q.value.cursor] + p.value.at))
  }

  function TextBytes(texts: seq<Text>): nat {
    if texts == [] then 0 else TextBytes(texts[..|texts| - 1]) + |texts[|texts| - 1]| + 1
  }

  ghost predicate HoldsText(mem: seq<Byte>, a: nat, text: Text) {
    a + |text| < |mem| && mem[a..a + |text|] == text && mem[a + |text|] == 0
  }

  /** All strings sit at or above the cursor. */
  ghost predicate HoldsAll(p: Pushed, texts: seq<Text>) {
    && |p.at| == |texts|
    && forall i :: 0 <= i < |texts| ==> p.at[i] >= p.cursor && HoldsText(p.mem, p.at[i], texts[i])
  }

  lemma StoredKeepsText(mem: seq<Byte>, cursor: nat, data: seq<Byte>, a: nat, text: Text)
    requires |data| <= cursor <= |mem| && a >= cursor && HoldsText(mem, a, text)
    ensures HoldsText(Stored(mem, cursor, data), a, text)
  {
    assert Stored(mem, cursor, data)[cursor..] == mem[cursor..];
    assert Stored(mem, cursor, data)[a..a + |text|]
        == Stored(mem, cursor, data)[cursor..][a - cursor..a - cursor + |text|];
    assert mem[a..a + |text|] == mem[cursor..][a - cursor..a - cursor + |text|];
  }

  lemma StoredKeepsAll(p: Pushed, data: seq<Byte>, texts: seq<Text>)
    requires |data| <= p.cursor <= |p.mem| && HoldsAll(p, texts)
    ensures HoldsAll(Pushed(Stored(p.mem, p.cursor, data), p.cursor - |data|, p.at), texts)
  {
    hide Stored, HoldsText;
    forall i | 0 <= i < |texts|
      ensures HoldsText(Stored(p.mem, p.cursor, data), p.at[i], texts[i])
    {
      StoredKeepsText(p.mem, p.cursor, data, p.at[i], texts[i]);
    }
  }

  lemma StoredHoldsText(mem: seq<Byte>, cursor: nat, text: Text)
    requires |text| + 1 <= cursor <= |mem|
    ensures HoldsText(Stored(mem, cursor, text + [0]), cursor - |text| - 1, text)
  {
    var a, m := cursor - |text| - 1, Stored(mem, cursor, text + [0]);
    assert m[a..a + |text|] == text;
  }

  lemma {:induction false} PushForwardHolds(mem: seq<Byte>, cursor: nat, texts: seq<Text>)
    requires cursor <= |mem|
    ensures var p := PushForward(mem, cursor, texts);
            && (p.Some? <==> TextBytes(texts) <= cursor)
            && (p.Some? ==> p.value.cursor == cursor - TextBytes(texts) && HoldsAll(p.value, texts))
            && (p.Some? ==> |p.value.at| == |texts|)
  {
    hide Stored, HoldsText;
    if texts != [] {
      var front, last := texts[..|texts| - 1], texts[|texts| - 1];
      PushForwardHolds(mem, cursor, front);
      var p := PushForward(mem, cursor, front);
      if p.Some? && |last| + 1 <= p.value.cursor {
        StoredKeepsAll(p.value, last + [0], front);
        StoredHoldsText(p.value.mem, p.value.cursor, last);
      }
    }
  }

  lemma {:induction false} TextBytesFromFront(texts: seq<Text>)
    requires texts != []
    ensures TextBytes(texts) == |texts[0]| + 1 + TextBytes(texts[1..])
  {
    if |texts| > 1 {
      TextBytesFromFront(texts[..|texts| - 1]);
      assert texts[1..][..|texts| - 2] == texts[..|texts| - 1][1..];
    }
  }

  lemma {:induction false} PushBackwardHolds(mem: seq<Byte>, cursor: nat, texts: seq<Text>)
    requires cursor <= |mem|
    ensures var p := PushBackward(mem, cursor, texts);
            && (p.Some? <==> TextBytes(texts) <= cursor)
            && (p.Some? ==> p.value.cursor == cursor - TextBytes(texts) && HoldsAll(p.value, texts))
            && (p.Some? ==> |p.value.at| == |texts| && (texts != [] ==> p.value.at[0] == p.value.cursor))
  {
    hide Stored, HoldsText, TextBytes;
    if texts == [] {
      assert TextBytes(texts) == 0 by { EmptyHasNoBytes(); }
    } else {
      PushBackwardHolds(mem, cursor, texts[1..]);
      TextBytesFromFront(texts);
      var p := PushBackward(mem, cursor, texts[1..]);
      if p.Some? && |texts[0]| + 1 <= p.value.cursor {
        StoredKeepsAll(p.value, texts[0] + [0], texts[1..]);
        StoredHoldsText(p.value.mem, p.value.cursor, texts[0]);
      }
    }
  }

  lemma EmptyHasNoBytes()
    ensures TextBytes([]) == 0
  {
  }

  lemma {:induction false} PushBackwardKeepsAll(p: Pushed, texts: seq<Text>, kept: seq<Text>)
    requires p.cursor <= |p.mem| && HoldsAll(p, kept)
    ensures var q := PushBackward(p.mem, p.cursor, texts);
            q.Some? ==> HoldsAll(Pushed(q.value.mem, q.value.cursor, p.at), kept)
    decreases |texts|
  {
    hide Stored, HoldsText;
    if texts != [] {
      PushBackwardKeepsAll(p, texts[1..], kept);
      var q := PushBackward(p.mem, p.cursor, texts[1..]);
      if q.Some? && |texts[0]| + 1 <= q.value.cursor {
        StoredKeepsAll(Pushed(q.value.mem, q.value.cursor, p.at), texts[0] + [0], kept);
      }
    }
  }

  // ----- words

  function WordBytes(w: Word): (r: seq<Byte>)
    ensures |r| == 4
  {
    [w % 256, w / 256 % 256, w / 65536 % 256, w / 16777216]
  }

  function Flat(words: seq<Word>): (r: seq<Byte>)
    ensures |r| == 4 * |words|
  {
    if words == [] then [] else Flat(words[..|words| - 1]) + WordBytes(words[|words| - 1])
  }

  /** A little-endian word. */
  function ReadWord(mem: seq<Byte>, a: nat): (r: Word)
    requires a + 4 <= |mem|
  {
    mem[a] as int + 256 * mem[a + 1] as int + 65536 * mem[a + 2] as int + 16777216 * mem[a + 3] as int
  }

  ghost predicate HoldsWords(mem: seq<Byte>, a: nat, words: seq<Word>) {
    a + 4 * |words| <= |mem| && forall i :: 0 <= i < |words| ==> ReadWord(mem, a + 4 * i) == words[i]
  }

  lemma WordRoundTrip(w: Word)
    ensures ReadWord(WordBytes(w), 0) == w
  {
    assert w / 65536 == w / 256 / 256;
    assert w / 16777216 == w / 256 / 256 / 256;
  }

  lemma ReadWordOfSlice(mem: seq<Byte>, a: nat, w: Word)
    requires a + 4 <= |mem| && mem[a..a + 4] == WordBytes(w)
    ensures ReadWord(mem, a) == w
  {
    WordRoundTrip(w);
    hide WordBytes;
    assert mem[a + 0] == WordBytes(w)[0];
    assert mem[a + 1] == WordBytes(w)[1];
    assert mem[a + 2] == WordBytes(w)[2];
    assert mem[a + 3] == WordBytes(w)[3];
  }

  lemma {:induction false} FlatHoldsWords(mem: seq<Byte>, a: nat, words: seq<Word>)
    requires a + 4 * |words| <= |mem| && mem[a..a + 4 * |words|] == Flat(words)
    ensures HoldsWords(mem, a, words)
    decreases |words|
  {
    hide WordBytes, ReadWord;
    if words != [] {
      var n := |words| - 1;
      assert mem[a..a + 4 * n] == mem[a..a + 4 * |words|][..4 * n];
      assert mem[a + 4 * n..a + 4 * n + 4] == mem[a..a + 4 * |words|][4 * n..];
      FlatHoldsWords(mem, a, words[..n]);
      ReadWordOfSlice(mem, a + 4 * n, words[n]);
      assert forall i :: 0 <= i < n ==> words[..n][i] == words[i];
    }
  }

  // ----- the vectors

  const AT_PHDR: Word := 3
  const AT_PHENT: Word := 4
  const AT_PHNUM: Word := 5
  const AT_PAGESZ: Word := 6
  const AT_BASE: Word := 7
  const AT_ENTRY: Word := 9
  const AT_UID: Word := 11
  const AT_EUID: Word := 12
  const AT_GID: Word := 13
  const AT_EGID: Word := 14
  const AT_SECURE: Word := 23
  const AT_RANDOM: Word := 25
  const AT_EXECFN: Word := 31

  datatype Aux = Aux(kind: Word, value: Word)

  /** What the auxiliary vector reports about the image and the host process. */
  datatype Info = Info(programHeaders: Word, headerSize: Word, headerCount: Word, pageSize: Word, base: Word,
                       entry: Word, uid: Word, euid: Word, gid: Word, egid: Word)

  function Auxiliary(info: Info, random: Word, execfn: Word): (r: seq<Aux>)
    ensures |r| == if info.programHeaders != 0 then 13 else 12
  {
    (if info.programHeaders != 0 then [Aux(AT_PHDR, info.programHeaders)] else [])
    + [Aux(AT_PHENT, info.headerSize), Aux(AT_PHNUM, info.headerCount), Aux(AT_PAGESZ, info.pageSize),
       Aux(AT_BASE, info.base), Aux(AT_ENTRY, info.entry), Aux(AT_UID, info.uid), Aux(AT_EUID, info.euid),
       Aux(AT_GID, info.gid), Aux(AT_EGID, info.egid), Aux(AT_SECURE, 0), Aux(AT_RANDOM, random),
       Aux(AT_EXECFN, execfn)]
  }

  /** `getauxval`: the value of the first entry of a kind. */
  function AuxValue(aux: seq<Aux>, kind: Word): Option<Word> {
    if aux == [] then None else if aux[0].kind == kind then Some(aux[0].value) else AuxValue(aux[1..], kind)
  }

  lemma AuxAt(aux: seq<Aux>, i: nat)
    requires i < |aux| && forall j :: 0 <= j < i ==> aux[j].kind != aux[i].kind
    ensures AuxValue(aux, aux[i].kind) == Some(aux[i].value)
  {
    if i > 0 {
      AuxAt(aux[1..], i - 1);
    }
  }

  /** Each question a starting program asks of the auxiliary vector has its own answer. */
  lemma AuxiliaryAnswers(info: Info, random: Word, execfn: Word)
    ensures var a := Auxiliary(info, random, execfn);
            && AuxValue(a, AT_PHDR) == (if info.programHeaders != 0 then Some(info.programHeaders) else None)
            && AuxValue(a, AT_PHENT) == Some(info.headerSize) && AuxValue(a, AT_PHNUM) == Some(info.headerCount)
            && AuxValue(a, AT_PAGESZ) == Some(info.pageSize) && AuxValue(a, AT_BASE) == Some(info.base)
            && AuxValue(a, AT_ENTRY) == Some(info.entry) && AuxValue(a, AT_SECURE) == Some(0)
            && AuxValue(a, AT_UID) == Some(info.uid) && AuxValue(a, AT_EUID) == Some(info.euid)
            && AuxValue(a, AT_GID) == Some(info.gid) && AuxValue(a, AT_EGID) == Some(info.egid)
            && AuxValue(a, AT_RANDOM) == Some(random) && AuxValue(a, AT_EXECFN) == Some(execfn)
  {
    hide AuxValue;
    var a := Auxiliary(info, random, execfn);
    if info.programHeaders == 0 {
      NoAux(a, AT_PHDR);
    }
    forall i | 0 <= i < |a|
      ensures AuxValue(a, a[i].kind) == Some(a[i].value)
    {
      AuxAt(a, i);
    }
    var k := |a| - 12;
    assert k == 1 ==> a[0] == Aux(AT_PHDR, info.programHeaders);
    assert a[k] == Aux(AT_PHENT, info.headerSize) && a[k + 1] == Aux(AT_PHNUM, info.headerCount);
    assert a[k + 2] == Aux(AT_PAGESZ, info.pageSize) && a[k + 3] == Aux(AT_BASE, info.base);
    assert a[k + 4] == Aux(AT_ENTRY, info.entry) && a[k + 5] == Aux(AT_UID, info.uid);
    assert a[k + 6] == Aux(AT_EUID, info.euid) && a[k + 7] == Aux(AT_GID, info.gid);
    assert a[k + 8] == Aux(AT_EGID, info.egid) && a[k + 9] == Aux(AT_SECURE, 0);
    assert a[k + 10] == Aux(AT_RANDOM, random) && a[k + 11] == Aux(AT_EXECFN, execfn);
  }

  lemma {:induction false} NoAux(aux: seq<Aux>, kind: Word)
    requires forall i :: 0 <= i < |aux| ==> aux[i].kind != kind
    ensures AuxValue(aux, kind) == None
  {
    if aux != [] {
      NoAux(aux[1..], kind);
    }
  }

  function Pairs(aux: seq<Aux>): (r: seq<Word>)
    ensures |r| == 2 * |aux|
  {
    if aux == [] then [] else [aux[0].kind, aux[0].value] + Pairs(aux[1..])
  }

  /** Offsets as guest addresses; the stored words are truncated to 32 bits. */
  function Addresses(lower: Word, at: seq<nat>): (r: seq<Word>)
    ensures |r| == |at|
  {
    seq(|at|, i requires 0 <= i < |at| => Wrap(lower + at[i]))
  }

  function Vector(argc: Word, args: seq<Word>, environment: seq<Word>, aux: seq<Aux>): (r: seq<Word>)
    ensures |r| == |args| + |environment| + 2 * |aux| + 5
  {
    [argc] + (args + ([0] + (environment + ([0] + (Pairs(aux) + [0, 0])))))
  }

  /** `guest_environment_entry`: emulator settings and the host's library path stay behind. */
  predicate Passed(entry: Text) {
    !(LINUXEMU_PREFIX <= entry) && !(LIBRARY_PATH_PREFIX <= entry)
  }

  function Ascii(s: string): Text
    requires forall i :: 0 <= i < |s| ==> s[i] as int < 256
  {
    seq(|s|, i requires 0 <= i < |s| => s[i] as int)
  }

  const LINUXEMU_PREFIX: Text := Ascii("LINUXEMU_")
  const LIBRARY_PATH_PREFIX: Text := Ascii("LD_LIBRARY_PATH=")

  function GuestEnvironment(environment: seq<Text>): seq<Text> {
    if environment == [] then []
    else
      GuestEnvironment(environment[..|environment| - 1])
      + if Passed(environment[|environment| - 1]) then [environment[|environment| - 1]] else []
  }

  /** The guest sees exactly the entries that are passed on. */
  lemma {:induction false} GuestEnvironmentMembers(environment: seq<Text>, entry: Text)
    ensures entry in GuestEnvironment(environment) <==> entry in environment && Passed(entry)
  {
    hide Passed;
    if environment != [] {
      GuestEnvironmentMembers(environment[..|environment| - 1], entry);
    }
  }

  lemma {:induction false} GuestEnvironmentTexts(environment: seq<Text>)
    requires AllTexts(environment)
    ensures AllTexts(GuestEnvironment(environment))
  {
    if environment != [] {
      GuestEnvironmentTexts(environment[..|environment| - 1]);
    }
  }

  datatype Stack = Stack(mem: seq<Byte>, sp: nat)

  function Down16(cursor: nat): (r: nat)
    ensures r % 16 == 0 && r <= cursor < r + 16
  {
    cursor - cursor % 16
  }

  /** `create_guest_stack` on a fresh mapping; None is E2BIG, or EINVAL without arguments. */
  function Create(mem: seq<Byte>, lower: Word, args: seq<Text>, environment: seq<Text>, random: seq<Byte>, info: Info)
    : (r: Option<Stack>)
    requires |random| == 16
    ensures r.Some? ==> |r.value.mem| == |mem| && r.value.sp + 4 <= |mem| && r.value.sp % 16 == 0
  {
    if args == [] then None
    else
      var e := PushForward(mem, |mem|, GuestEnvironment(environment));
      if e.None? then None
      else
        var a := PushBackward(e.value.mem, e.value.cursor, args);
        if a.None? || Down16(a.value.cursor) < 16 then None
        else
          PushBackwardHolds(e.value.mem, e.value.cursor, args);
          PushForwardHolds(mem, |mem|, GuestEnvironment(environment));
          Finish(lower, e.value.at, a.value, random, info)
  }

  function StackWords(lower: Word, environment: seq<nat>, args: seq<nat>, random: nat, info: Info): (r: seq<Word>)
    requires args != []
    ensures |r| == |args| + |environment| + 5 + 2 * if info.programHeaders != 0 then 13 else 12
  {
    Vector(Wrap(|args|), Addresses(lower, args), Addresses(lower, environment),
           Auxiliary(info, Wrap(lower + random), Wrap(lower + args[0])))
  }

  /** From the random bytes on. */
  function Finish(lower: Word, environment: seq<nat>, a: Pushed, random: seq<Byte>, info: Info): (r: Option<Stack>)
    requires |random| == 16 && a.cursor <= |a.mem| && Down16(a.cursor) >= 16 && a.at != []
    ensures r.Some? ==> |r.value.mem| == |a.mem| && r.value.sp + 4 <= |a.mem| && r.value.sp % 16 == 0
  {
    var r := Down16(a.cursor) - 16;
    var words := StackWords(lower, environment, a.at, r, info);
    if |words| > r / 4 then None
    else
      var sp := Down16(r - 4 * |words|);
      Some(Stack(Stored(Stored(a.mem, r + 16, random), sp + 4 * |words|, Flat(words)), sp))
  }

  // ----- the reader of a starting program

  function ReadText(mem: seq<Byte>, a: nat): Text
    decreases |mem| - a
  {
    if a >= |mem| || mem[a] == 0 then [] else [mem[a]] + ReadText(mem, a + 1)
  }

  function TextAt(mem: seq<Byte>, lower: Word, address: Word): Text {
    if address < lower then [] else ReadText(mem, address - lower)
  }

  function ReadTexts(mem: seq<Byte>, lower: Word, a: nat, n: nat): seq<Text>
    decreases n
  {
    if n == 0 || a + 4 > |mem| then []
    else [TextAt(mem, lower, ReadWord(mem, a))] + ReadTexts(mem, lower, a + 4, n - 1)
  }

  function CountUntilZero(mem: seq<Byte>, a: nat): nat
    decreases |mem| - a
  {
    if a + 4 > |mem| || ReadWord(mem, a) == 0 then 0 else 1 + CountUntilZero(mem, a + 4)
  }

  function ReadAux(mem: seq<Byte>, a: nat): seq<Aux>
    decreases |mem| - a
  {
    if a + 8 > |mem| || ReadWord(mem, a) == 0 then []
    else [Aux(ReadWord(mem, a), ReadWord(mem, a + 4))] + ReadAux(mem, a + 8)
  }

  datatype Process = Process(args: seq<Text>, terminated: bool, environment: seq<Text>, aux: seq<Aux>)

  /** What the program finds from its initial stack pointer alone. */
  function Startup(mem: seq<Byte>, lower: Word, sp: nat): Process
    requires sp + 4 <= |mem|
  {
    var argc := ReadWord(mem, sp);
    var e := sp + 4 * (argc + 2);
    var n := CountUntilZero(mem, e);
    Process(ReadTexts(mem, lower, sp + 4, argc), e <= |mem| && ReadWord(mem, e - 4) == 0,
            ReadTexts(mem, lower, e, n), ReadAux(mem, e + 4 * (n + 1)))
  }

  // ----- reading back what was written

  lemma {:induction false} ReadTextFinds(mem: seq<Byte>, a: nat, text: Text)
    requires HoldsText(mem, a, text) && IsText(text)
    ensures ReadText(mem, a) == text
    decreases |text|
  {
    if text != [] {
      assert mem[a..a + |text|][0] == text[0];
      assert mem[a + 1..a + |text|] == text[1..];
      ReadTextFinds(mem, a + 1, text[1..]);
      assert text == [text[0]] + text[1..];
    }
  }

  lemma HoldsWordsSplit(mem: seq<Byte>, a: nat, u: seq<Word>, v: seq<Word>)
    requires HoldsWords(mem, a, u + v)
    ensures HoldsWords(mem, a, u) && HoldsWords(mem, a + 4 * |u|, v)
  {
    hide ReadWord;
    forall i | 0 <= i < |u|
      ensures ReadWord(mem, a + 4 * i) == u[i]
    {
      assert (u + v)[i] == u[i];
    }
    forall i | 0 <= i < |v|
      ensures ReadWord(mem, a + 4 * |u| + 4 * i) == v[i]
    {
      assert (u + v)[|u| + i] == v[i];
      assert a + 4 * |u| + 4 * i == a + 4 * (|u| + i);
    }
  }

  lemma HoldsFirst(mem: seq<Byte>, a: nat, w: Word, rest: seq<Word>)
    requires HoldsWords(mem, a, [w] + rest)
    ensures a + 4 <= |mem| && ReadWord(mem, a) == w && HoldsWords(mem, a + 4, rest)
  {
    HoldsWordsSplit(mem, a, [w], rest);
    hide ReadWord;
    assert ReadWord(mem, a + 4 * 0) == [w][0];
  }

  lemma {:induction false} ReadTextsFinds(mem: seq<Byte>, lower: Word, a: nat, words: seq<Word>, at: seq<nat>,
                                          texts: seq<Text>)
    requires HoldsWords(mem, a, words) && |words| == |at| == |texts| && AllTexts(texts)
    requires forall i :: 0 <= i < |at| ==> words[i] == lower + at[i] && HoldsText(mem, at[i], texts[i])
    ensures ReadTexts(mem, lower, a, |words|) == texts
    decreases |words|
  {
    hide ReadWord, HoldsText;
    if words != [] {
      assert words == [words[0]] + words[1..];
      HoldsFirst(mem, a, words[0], words[1..]);
      ReadTextFinds(mem, at[0], texts[0]);
      ReadTextsFinds(mem, lower, a + 4, words[1..], at[1..], texts[1..]);
      assert texts == [texts[0]] + texts[1..];
    }
  }

  lemma {:induction false} CountFinds(mem: seq<Byte>, a: nat, words: seq<Word>)
    requires HoldsWords(mem, a, words + [0])
    requires forall i :: 0 <= i < |words| ==> words[i] != 0
    ensures CountUntilZero(mem, a) == |words|
    decreases |words|
  {
    hide ReadWord;
    if words == [] {
      assert words + [0] == [0] + [];
      HoldsFirst(mem, a, 0, []);
    } else {
      assert words + [0] == [words[0]] + (words[1..] + [0]);
      HoldsFirst(mem, a, words[0], words[1..] + [0]);
      CountFinds(mem, a + 4, words[1..]);
    }
  }

  lemma {:induction false} ReadAuxFinds(mem: seq<Byte>, a: nat, aux: seq<Aux>)
    requires HoldsWords(mem, a, Pairs(aux) + [0, 0])
    requires forall i :: 0 <= i < |aux| ==> aux[i].kind != 0
    ensures ReadAux(mem, a) == aux
    decreases |aux|
  {
    hide ReadWord;
    if aux == [] {
      assert Pairs(aux) + [0, 0] == [0] + [0];
      HoldsFirst(mem, a, 0, [0]);
    } else {
      var rest := Pairs(aux[1..]) + [0, 0];
      assert Pairs(aux) + [0, 0] == [aux[0].kind] + ([aux[0].value] + rest);
      HoldsFirst(mem, a, aux[0].kind, [aux[0].value] + rest);
      HoldsFirst(mem, a + 4, aux[0].value, rest);
      ReadAuxFinds(mem, a + 8, aux[1..]);
      assert aux == [aux[0]] + aux[1..];
    }
  }

  /** Strings at given offsets, whatever lies around them. */
  ghost predicate TextsAt(mem: seq<Byte>, at: seq<nat>, texts: seq<Text>) {
    |at| == |texts| && forall i :: 0 <= i < |at| ==> HoldsText(mem, at[i], texts[i])
  }

  lemma AddressesExact(mem: seq<Byte>, lower: Word, at: seq<nat>, texts: seq<Text>)
    requires 0 < lower && lower + |mem| <= UINTPTR_MAX && TextsAt(mem, at, texts)
    ensures |Addresses(lower, at)| == |at|
    ensures forall i :: 0 <= i < |at| ==> Addresses(lower, at)[i] == lower + at[i] && Addresses(lower, at)[i] != 0
  {
    forall i | 0 <= i < |at|
      ensures Addresses(lower, at)[i] == lower + at[i]
    {
      assert HoldsText(mem, at[i], texts[i]);
    }
  }

  /** The pieces of the vectors, each where the reader looks for it. */
  lemma VectorParts(mem: seq<Byte>, sp: nat, argc: Word, a: seq<Word>, e: seq<Word>, aux: seq<Aux>)
    requires HoldsWords(mem, sp, Vector(argc, a, e, aux))
    ensures sp + 4 <= |mem| && ReadWord(mem, sp) == argc
    ensures HoldsWords(mem, sp + 4, a)
    ensures sp + 4 + 4 * |a| + 4 <= |mem| && ReadWord(mem, sp + 4 + 4 * |a|) == 0
    ensures HoldsWords(mem, sp + 4 + 4 * |a| + 4, e + [0])
    ensures HoldsWords(mem, sp + 4 + 4 * |a| + 4 + 4 * (|e| + 1), Pairs(aux) + [0, 0])
  {
    hide HoldsWords, ReadWord, Pairs;
    var p := Pairs(aux) + [0, 0];
    HoldsFirst(mem, sp, argc, a + ([0] + (e + ([0] + p))));
    HoldsWordsSplit(mem, sp + 4, a, [0] + (e + ([0] + p)));
    HoldsFirst(mem, sp + 4 + 4 * |a|, 0, e + ([0] + p));
    assert e + ([0] + p) == (e + [0]) + p;
    HoldsWordsSplit(mem, sp + 4 + 4 * |a| + 4, e + [0], p);
  }

  /** The vectors alone lead a program back to its arguments, environment and auxiliary entries. */
  lemma VectorIsRead(mem: seq<Byte>, lower: Word, sp: nat, at: seq<nat>, args: seq<Text>, environmentAt: seq<nat>,
                     environment: seq<Text>, aux: seq<Aux>)
    requires 0 < lower && lower + |mem| <= UINTPTR_MAX && |at| <= |mem|
    requires TextsAt(mem, at, args) && TextsAt(mem, environmentAt, environment)
    requires AllTexts(args) && AllTexts(environment)
    requires forall i :: 0 <= i < |aux| ==> aux[i].kind != 0
    requires HoldsWords(mem, sp, Vector(Wrap(|at|), Addresses(lower, at), Addresses(lower, environmentAt), aux))
    ensures sp + 4 <= |mem|
    ensures Startup(mem, lower, sp) == Process(args, true, environment, aux)
  {
    hide Addresses, ReadWord, HoldsText, HoldsWords, AllTexts, TextsAt, Vector, Pairs, ReadTexts, CountUntilZero,
         ReadAux, Wrap;
    WrapSmall(|at|);
    var e := Addresses(lower, environmentAt);
    VectorParts(mem, sp, |at|, Addresses(lower, at), e, aux);
    PointersAreRead(mem, lower, sp + 4, at, args);
    var z := sp + 4 + 4 * |at| + 4;
    AddressesExact(mem, lower, environmentAt, environment);
    CountFinds(mem, z, e);
    HoldsWordsSplit(mem, z, e, [0]);
    PointersAreRead(mem, lower, z, environmentAt, environment);
    ReadAuxFinds(mem, z + 4 * (|e| + 1), aux);
    assert z == sp + 4 * (|at| + 2);
  }

  lemma WrapSmall(n: nat)
    requires n <= UINTPTR_MAX
    ensures Wrap(n) == n
  {
  }

  lemma PointersAreRead(mem: seq<Byte>, lower: Word, a: nat, at: seq<nat>, texts: seq<Text>)
    requires 0 < lower && lower + |mem| <= UINTPTR_MAX && TextsAt(mem, at, texts) && AllTexts(texts)
    requires HoldsWords(mem, a, Addresses(lower, at))
    ensures ReadTexts(mem, lower, a, |at|) == texts
  {
    hide HoldsText, HoldsWords, AllTexts, ReadTexts;
    AddressesExact(mem, lower, at, texts);
    ReadTextsFinds(mem, lower, a, Addresses(lower, at), at, texts);
  }

  lemma StoredLower(mem: seq<Byte>, cursor: nat, data: seq<Byte>, bound: nat, at: seq<nat>, texts: seq<Text>)
    requires |data| <= cursor <= bound <= |mem| && HoldsAll(Pushed(mem, bound, at), texts)
    ensures HoldsAll(Pushed(Stored(mem, cursor, data), bound, at), texts)
  {
    hide Stored, HoldsText;
    forall i | 0 <= i < |texts|
      ensures HoldsText(Stored(mem, cursor, data), at[i], texts[i])
    {
      StoredKeepsText(mem, cursor, data, at[i], texts[i]);
    }
  }

  lemma StoredReads(mem: seq<Byte>, cursor: nat, data: seq<Byte>)
    requires |data| <= cursor <= |mem|
    ensures Stored(mem, cursor, data)[cursor - |data|..cursor] == data
    ensures Stored(mem, cursor, data)[cursor..] == mem[cursor..]
  {
  }

  lemma AuxiliaryKinds(info: Info, random: Word, execfn: Word)
    ensures forall i :: 0 <= i < |Auxiliary(info, random, execfn)| ==> Auxiliary(info, random, execfn)[i].kind != 0
  {
  }

  lemma {:induction false} CountIsBelowBytes(texts: seq<Text>)
    ensures |texts| <= TextBytes(texts)
  {
    if texts != [] {
      CountIsBelowBytes(texts[..|texts| - 1]);
    }
  }

  lemma TextsSurvive(a: Pushed, texts: seq<Text>, first: nat, data: seq<Byte>, second: nat, more: seq<Byte>)
    requires |data| <= first <= a.cursor <= |a.mem| && |more| <= second <= a.cursor && HoldsAll(a, texts)
    ensures TextsAt(Stored(Stored(a.mem, first, data), second, more), a.at, texts)
  {
    hide Stored, HoldsText, HoldsAll, TextsAt;
    var m := Stored(a.mem, first, data);
    StoredLower(a.mem, first, data, a.cursor, a.at, texts);
    StoredLower(m, second, more, a.cursor, a.at, texts);
    HoldsAllTexts(Pushed(Stored(m, second, more), a.cursor, a.at), texts);
  }

  lemma RandomSurvives(mem: seq<Byte>, r: nat, random: seq<Byte>, second: nat, more: seq<Byte>)
    requires |random| == 16 && r + 16 <= |mem| && |more| <= second <= r
    ensures Stored(Stored(mem, r + 16, random), second, more)[r..r + 16] == random
  {
    hide Stored;
    var m := Stored(mem, r + 16, random);
    StoredReads(mem, r + 16, random);
    StoredReads(m, second, more);
    SliceAbove(m, Stored(m, second, more), second, r);
  }

  lemma WordsStored(mem: seq<Byte>, sp: nat, words: seq<Word>)
    requires sp + 4 * |words| <= |mem|
    ensures HoldsWords(Stored(mem, sp + 4 * |words|, Flat(words)), sp, words)
  {
    hide Stored, Flat, HoldsWords;
    StoredReads(mem, sp + 4 * |words|, Flat(words));
    FlatHoldsWords(Stored(mem, sp + 4 * |words|, Flat(words)), sp, words);
  }

  /** The random bytes and all strings survive the writing of the vectors. */
  lemma VectorsLeaveTexts(a: Pushed, texts: seq<Text>, r: nat, random: seq<Byte>, sp: nat, words: seq<Word>)
    requires |random| == 16 && r + 16 <= a.cursor <= |a.mem| && sp + 4 * |words| <= r && HoldsAll(a, texts)
    ensures var m := Stored(Stored(a.mem, r + 16, random), sp + 4 * |words|, Flat(words));
            TextsAt(m, a.at, texts) && m[r..r + 16] == random && HoldsWords(m, sp, words)
  {
    hide Stored, Flat, HoldsWords, HoldsAll, TextsAt;
    TextsSurvive(a, texts, r + 16, random, sp + 4 * |words|, Flat(words));
    RandomSurvives(a.mem, r, random, sp + 4 * |words|, Flat(words));
    WordsStored(Stored(a.mem, r + 16, random), sp, words);
  }

  lemma HoldsAllTexts(p: Pushed, texts: seq<Text>)
    requires HoldsAll(p, texts)
    ensures TextsAt(p.mem, p.at, texts)
  {
    hide HoldsText;
  }

  lemma StackWordsAreRead(mem: seq<Byte>, lower: Word, sp: nat, at: seq<nat>, args: seq<Text>,
                          environmentAt: seq<nat>, environment: seq<Text>, r: nat, info: Info)
    requires 0 < lower && lower + |mem| <= UINTPTR_MAX && |at| <= |mem| && r <= |mem| && at != [] && at[0] <= |mem|
    requires TextsAt(mem, at, args) && TextsAt(mem, environmentAt, environment)
    requires AllTexts(args) && AllTexts(environment)
    requires HoldsWords(mem, sp, StackWords(lower, environmentAt, at, r, info))
    ensures sp + 4 <= |mem|
    ensures Startup(mem, lower, sp) == Process(args, true, environment, Auxiliary(info, lower + r, lower + at[0]))
  {
    assert Wrap(lower + r) == lower + r && Wrap(lower + at[0]) == lower + at[0];
    AuxiliaryKinds(info, lower + r, lower + at[0]);
    hide HoldsWords, TextsAt, AllTexts, Vector, Addresses, Auxiliary, Startup;
    VectorIsRead(mem, lower, sp, at, args, environmentAt, environment, Auxiliary(info, lower + r, lower + at[0]));
  }

  lemma FinishReadsBack(lower: Word, environmentAt: seq<nat>, environment: seq<Text>, a: Pushed, args: seq<Text>,
                        random: seq<Byte>, info: Info)
    requires |random| == 16 && a.cursor <= |a.mem| && Down16(a.cursor) >= 16 && a.at != [] && |a.at| <= |a.mem|
    requires 0 < lower && lower + |a.mem| <= UINTPTR_MAX && a.at[0] == a.cursor
    requires HoldsAll(a, args) && HoldsAll(a.(at := environmentAt), environment)
    requires AllTexts(args) && AllTexts(environment) && args != []
    ensures var s := Finish(lower, environmentAt, a, random, info);
            s.Some? ==> Starts(s.value, lower, a.cursor, args, environment, random, info)
  {
    hide Stored, HoldsText, Flat, Auxiliary, Vector, Addresses, Startup, HoldsWords, AllTexts, HoldsAll, TextsAt, Wrap,
         Down16, StackWords, ReadText;
    var s := Finish(lower, environmentAt, a, random, info);
    if s.Some? {
      var r := Down16(a.cursor) - 16;
      var words := StackWords(lower, environmentAt, a.at, r, info);
      VectorsLeaveTexts(a, args, r, random, s.value.sp, words);
      VectorsLeaveTexts(a.(at := environmentAt), environment, r, random, s.value.sp, words);
      StackWordsAreRead(s.value.mem, lower, s.value.sp, a.at, args, environmentAt, environment, r, info);
      FirstText(s.value.mem, a.at, args);
    }
  }

  lemma FirstText(mem: seq<Byte>, at: seq<nat>, texts: seq<Text>)
    requires TextsAt(mem, at, texts) && AllTexts(texts) && texts != []
    ensures ReadText(mem, at[0]) == texts[0]
  {
    ReadTextFinds(mem, at[0], texts[0]);
  }

  lemma SliceAbove(m: seq<Byte>, n: seq<Byte>, cursor: nat, r: nat)
    requires |m| == |n| && cursor <= r && r + 16 <= |m| && n[cursor..] == m[cursor..]
    ensures n[r..r + 16] == m[r..r + 16]
  {
    assert n[r..r + 16] == n[cursor..][r - cursor..r + 16 - cursor];
    assert m[r..r + 16] == m[cursor..][r - cursor..r + 16 - cursor];
  }

  /**
    A program entered with this stack finds its arguments, its environment and its auxiliary entries; the
    latter point at the random bytes and at the text of the first argument.
   */
  ghost predicate Starts(s: Stack, lower: Word, cursor: nat, args: seq<Text>, environment: seq<Text>,
                         random: seq<Byte>, info: Info)
  {
    && args != []
    && 16 <= Down16(cursor) <= |s.mem| && lower + cursor <= UINTPTR_MAX && s.sp + 4 <= |s.mem|
    && var r := Down16(cursor) - 16;
       && s.mem[r..r + 16] == random
       && TextAt(s.mem, lower, lower + cursor) == args[0]
       && Startup(s.mem, lower, s.sp)
          == Process(args, true, environment, Auxiliary(info, lower + r, lower + cursor))
  }

  lemma SumAligned(lower: nat, sp: nat)
    requires lower % 16 == 0 && sp % 16 == 0
    ensures (lower + sp) % 16 == 0
  {
  }

  /** The stack pointer is 16-aligned and the program reads back exactly what it was given. */
  lemma StartupReadsBack(mem: seq<Byte>, lower: Word, args: seq<Text>, environment: seq<Text>, random: seq<Byte>,
                         info: Info)
    requires |random| == 16 && AllTexts(args) && AllTexts(environment)
    requires GUEST_MIN_ADDRESS <= lower && lower % 16 == 0 && lower + |mem| <= GUEST_MAX_ADDRESS
    ensures var s := Create(mem, lower, args, environment, random, info);
            s.Some? ==>
              var cursor := |mem| - TextBytes(GuestEnvironment(environment)) - TextBytes(args);
              && (lower + s.value.sp) % 16 == 0
              && cursor >= 0
              && Starts(s.value, lower, cursor, args, GuestEnvironment(environment), random, info)
  {
    hide Finish, GuestEnvironment, AllTexts, HoldsText, Starts, TextBytes, PushForward, PushBackward, Stored, HoldsAll,
         Down16;
    var s := Create(mem, lower, args, environment, random, info);
    if s.Some? {
      var passed := GuestEnvironment(environment);
      GuestEnvironmentTexts(environment);
      PushForwardHolds(mem, |mem|, passed);
      var e := PushForward(mem, |mem|, passed).value;
      PushBackwardHolds(e.mem, e.cursor, args);
      PushBackwardKeepsAll(e, args, passed);
      var a := PushBackward(e.mem, e.cursor, args).value;
      CountIsBelowBytes(args);
      SumAligned(lower, s.value.sp);
      FinishReadsBack(lower, e.at, passed, a, args, random, info);
    }
  }

  /** Exactly when everything fits: all strings, 16 random bytes and the vectors, with both alignment gaps. */
  lemma CreateFitsIff(mem: seq<Byte>, lower: Word, args: seq<Text>, environment: seq<Text>, random: seq<Byte>,
                      info: Info)
    requires |random| == 16
    ensures var passed := GuestEnvironment(environment);
            var cursor := |mem| - TextBytes(passed) - TextBytes(args);
            var entries := if info.programHeaders != 0 then 13 else 12;
            Create(mem, lower, args, environment, random, info).Some? <==>
              && args != []
              && cursor >= 0
              && 4 * (|args| + |passed| + 5 + 2 * entries) + 16 <= Down16(cursor)
  {
    hide GuestEnvironment, HoldsText, TextBytes, Stored, HoldsAll, PushForward, PushBackward, StackWords, Flat;
    var passed := GuestEnvironment(environment);
    PushForwardHolds(mem, |mem|, passed);
    if TextBytes(passed) <= |mem| {
      var e := PushForward(mem, |mem|, passed).value;
      PushBackwardHolds(e.mem, e.cursor, args);
    }
  }
}
