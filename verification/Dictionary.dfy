// The word dictionary (core.cpp): registration, newest-first lookup, reset.
module Dictionary {
  import opened Arith
  import opened Errors
  import Arena
  import Bits

  const MAX_WORDS := 256

  /** name is None for an anonymous word. Empty code stands for a null code
      pointer or a length that is not positive. */
  datatype Word = Word(name: Option<string>, code: seq<Byte>)

  /** Where names are copied: the C heap, or an arena. */
  datatype NameStore =
    | Heap
    | InArena(hasBuffer: bool, width: nat, size: nat, used: nat)

  datatype Dict = Dict(words: seq<Word>, names: NameStore)

  /** Room for a copy of a name: malloc may or may not give it, the arena
      decides by its own state. None is a failure. */
  function CopyName(names: NameStore, name: string, mallocOk: bool): Option<NameStore>
  {
    match names
    case Heap => if mallocOk then Some(Heap) else None
    case InArena(hasBuffer, width, size, used) =>
      if !hasBuffer then None
      else
        match Arena.Alloc(width, size, used, Arena.Request(|name| + 1, 1))
        case (Some(_), used') => Some(InArena(hasBuffer, width, size, used'))
        case (None, _) => None
  }

  /** vm_register_word: the index of the new word, or an error. */
  function Register(d: Dict, name: Option<string>, code: seq<Byte>, mallocOk: bool): (int, Dict)
  {
    if code == [] then (INVALID_ARG, d)
    else if |d.words| >= MAX_WORDS then (DICTIONARY_FULL, d)
    else
      var word := Word(name, code);
      match name
      case None => (|d.words|, d.(words := d.words + [word]))
      case Some(n) =>
        match CopyName(d.names, n, mallocOk)
        case None => (INVALID_ARG, d)
        case Some(names) => (|d.words|, Dict(d.words + [word], names))
  }

  /** The greatest index whose word has the name, or -1. */
  function Find(words: seq<Word>, name: string): (r: int)
    ensures -1 <= r < |words|
    ensures r >= 0 ==> words[r].name == Some(name)
    ensures forall i :: 0 <= i < |words| && r < i ==> words[i].name != Some(name)
  {
    if words == [] then -1
    else if words[|words| - 1].name == Some(name) then |words| - 1
    else Find(words[..|words| - 1], name)
  }

  // ------------------------------------------------------------ histories

  datatype Request =
    | RegisterWord(name: Option<string>, code: seq<Byte>, mallocOk: bool)
    | ResetDictionary

  /** What a caller sees: each registration with its result, and the resets. */
  datatype Event =
    | Registered(name: Option<string>, code: seq<Byte>, result: int)
    | WasReset

  ghost function Replay(d: Dict, h: seq<Request>): (seq<Event>, Dict)
  {
    if h == [] then ([], d)
    else
      var (log, before) := Replay(d, h[..|h| - 1]);
      match h[|h| - 1]
      case ResetDictionary => (log + [WasReset], before.(words := []))
      case RegisterWord(name, code, ok) =>
        var (result, after) := Register(before, name, code, ok);
        (log + [Registered(name, code, result)], after)
  }

  /** The latest successful registration of the name since the last reset, read
      off the log: its result and its code. */
  ghost function Latest(log: seq<Event>, name: string): Option<(int, seq<Byte>)>
  {
    if log == [] then None
    else
      match log[|log| - 1]
      case WasReset => None
      case Registered(n, code, result) =>
        if n == Some(name) && result >= 0 then Some((result, code)) else Latest(log[..|log| - 1], name)
  }

  /** Lookup against any history of registrations, failed and anonymous ones
      included, and resets: it returns the index the caller was last told for the
      name, and the word there has the code registered then. */
  lemma {:induction false} FindIsLatest(names: NameStore, h: seq<Request>, name: string)
    ensures var (log, d) := Replay(Dict([], names), h);
      && |d.words| <= MAX_WORDS
      && match Latest(log, name)
         case None => Find(d.words, name) == -1
         case Some((index, code)) =>
           Find(d.words, name) == index && 0 <= index < |d.words| && d.words[index].code == code
    decreases |h|
  {
    hide Register, Find;
    if h == [] {
      FindAfter([], name);
    } else {
      FindIsLatest(names, h[..|h| - 1], name);
      var (log, before) := Replay(Dict([], names), h[..|h| - 1]);
      var (log', after) := Replay(Dict([], names), h);
      assert log'[..|log'| - 1] == log;
      FindAfter(after.words, name);
      if h[|h| - 1].RegisterWord? {
        RegisterAppends(before, h[|h| - 1].name, h[|h| - 1].code, h[|h| - 1].mallocOk);
        assert after.words != before.words ==> after.words[..|after.words| - 1] == before.words;
      }
    }
  }

  lemma FindAfter(words: seq<Word>, name: string)
    ensures Find(words, name) ==
      if words == [] then -1
      else if words[|words| - 1].name == Some(name) then |words| - 1
      else Find(words[..|words| - 1], name)
  {}

  /** A registration fails and changes no word, or appends its word and reports
      the index. */
  lemma RegisterAppends(d: Dict, name: Option<string>, code: seq<Byte>, mallocOk: bool)
    ensures var (result, after) := Register(d, name, code, mallocOk);
      if result < 0 then after.words == d.words
      else result == |d.words| < MAX_WORDS && after.words == d.words + [Word(name, code)]
  {}

  /** There is room for a copy of the name: malloc gives it, or the arena has a
      buffer and the end of the copy lies in it, or wraps around size_t into it. */
  predicate HasRoomFor(names: NameStore, name: string, mallocOk: bool)
  {
    match names
    case Heap => mallocOk
    case InArena(hasBuffer, width, size, used) =>
      var end := used + |name| + 1;
      hasBuffer && (end <= size || 0 <= end - Bits.Pow2(width) <= size)
  }

  /** What an arena guarantees, and that the length of a name is a size_t. */
  predicate FitsSizeT(names: NameStore, name: Option<string>)
  {
    names.InArena? ==>
      && names.used <= names.size && Arena.SizeT(names.width, names.size)
      && (name.Some? ==> Arena.SizeT(names.width, |name.value| + 1))
  }

  /** When a registration succeeds and what it then changes; otherwise which error
      it gives, and that it changes nothing. */
  lemma RegisterOutcome(d: Dict, name: Option<string>, code: seq<Byte>, mallocOk: bool)
    requires FitsSizeT(d.names, name)
    ensures var (idx, after) := Register(d, name, code, mallocOk);
      if code == [] then idx == -16 && after == d
      else if |d.words| >= 256 then idx == -17 && after == d
      else if name.Some? && !HasRoomFor(d.names, name.value, mallocOk) then idx == -16 && after == d
      else
        && idx == |d.words| && after.words == d.words + [Word(name, code)]
        && after.names == match d.names
           case Heap => Heap
           case InArena(b, width, size, used) =>
             var end := if name.Some? then used + |name.value| + 1 else used;
             InArena(b, width, size, if end <= size then end else end - Bits.Pow2(width))
  {
    if name.Some? && d.names.InArena? {
      ByteAligned(d.names.width, d.names.size, d.names.used, |name.value| + 1);
    }
  }

  lemma ByteAligned(width: nat, size: nat, used: nat, bytes: nat)
    requires Arena.SizeT(width, size) && used <= size && Arena.SizeT(width, bytes) && bytes > 0
    ensures var w := Bits.Pow2(width);
      Arena.Alloc(width, size, used, Arena.Request(bytes, 1)) ==
        if used + bytes <= size then (Some(used), used + bytes)
        else if 0 <= used + bytes - w <= size then (Some(used), used + bytes - w)
        else (None, used)
  {
    hide Bits.Pow2, Bits.And, Arena.RoundUp, Arena.Acceptable, Arena.IsMultiple;
    var q := Arena.Request(bytes, 1);
    AnyByteAligned(bytes);
    assert Arena.RoundUp(used, 1) == used;
    Arena.AllocOffset(width, size, used, q);
  }

  lemma AnyByteAligned(bytes: nat)
    requires bytes > 0
    ensures Arena.Acceptable(Arena.Request(bytes, 1))
  {
    assert Bits.And(1, 0) == 0;
  }

  // ------------------------------------------------------------ in place

  class WordTable {
    var words: seq<Word>
    const arena: Arena.BumpArena?

    ghost predicate Valid()
      reads this, arena
    {
      |words| <= MAX_WORDS && (arena != null ==> arena.Valid())
    }

    ghost function Contents(): Dict
      reads this, arena
    {
      Dict(words, if arena == null then Heap else InArena(arena.hasBuffer, arena.width, arena.size, arena.used))
    }

    constructor (arena: Arena.BumpArena?)
      requires arena != null ==> arena.Valid()
      ensures Valid() && words == [] && this.arena == arena
    {
      words := [];
      this.arena := arena;
    }

    /** mallocOk says whether strdup succeeds when there is no arena. */
    method RegisterWord(name: Option<string>, code: seq<Byte>, mallocOk: bool) returns (idx: int)
      requires Valid()
      requires name.Some? && arena != null ==> Arena.SizeT(arena.width, |name.value| + 1) && Arena.SizeT(arena.width, 1)
      modifies `words, arena
      ensures Valid()
      ensures (idx, Contents()) == Register(old(Contents()), name, code, mallocOk)
    {
      if code == [] { return INVALID_ARG; }
      if |words| >= MAX_WORDS { return DICTIONARY_FULL; }
      idx := |words|;
      if name.Some? {
        if arena != null {
          var copy := arena.Allocate(|name.value| + 1, 1);
          if copy.None? { return INVALID_ARG; }
        } else if !mallocOk {
          return INVALID_ARG;
        }
      }
      words := words + [Word(name, code)];
    }

    method FindWord(name: string) returns (idx: int)
      ensures idx == Find(words, name)
    {
      idx := |words| - 1;
      while idx >= 0
        invariant -1 <= idx < |words|
        invariant forall j :: idx < j < |words| ==> words[j].name != Some(name)
        invariant Find(words, name) == Find(words[..idx + 1], name)
      {
        if words[idx].name == Some(name) { return; }
        assert words[..idx + 1][..idx] == words[..idx];
        idx := idx - 1;
      }
    }

    method Reset()
      requires Valid()
      modifies `words
      ensures Valid() && Contents() == old(Contents()).(words := [])
    {
      words := [];
    }
  }
}
