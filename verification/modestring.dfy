// The channel mode string: AddFlag(), RemFlag() and IsSet() of Sources/modes.c.
module ModeString {
  import opened CaseFold
  import opened Words
  import opened Wrappers

  /** One mode that is set. Only 'l' and 'k' have an argument; the others carry "". */
  datatype Setting = Setting(flag: char, arg: string)

  /** The scratch buffer `newmode` holds this many flags. */
  const MAX_FLAGS := 14

  predicate HasArg(flag: char) {
    flag == 'l' || flag == 'k'
  }

  predicate ValidSetting(s: Setting) {
    && s.flag != ' ' && s.flag != NUL
    && (if HasArg(s.flag) then Word(s.arg) else s.arg == [])
  }

  predicate ValidModes(modes: seq<Setting>) {
    && |modes| <= MAX_FLAGS
    && (forall i | 0 <= i < |modes| :: ValidSetting(modes[i]))
    && (forall i, j | 0 <= i < j < |modes| :: modes[i].flag != modes[j].flag)
  }

  // --- the encoding ---------------------------------------------------------------------

  function Flags(modes: seq<Setting>): (r: string)
    ensures |r| == |modes|
  {
    seq(|modes|, i requires 0 <= i < |modes| => modes[i].flag)
  }

  function Args(modes: seq<Setting>): seq<string> {
    if modes == [] then []
    else (if HasArg(modes[0].flag) then [modes[0].arg] else []) + Args(modes[1..])
  }

  /** The flags, a space, then the arguments of 'l' and 'k' in the order of their flags,
      each followed by a space. */
  function Encode(modes: seq<Setting>): string {
    Flags(modes) + " " + Spaced(Args(modes))
  }

  /** A fresh channel has the empty string, which stands for no modes as " " does. */
  predicate Represents(s: string, modes: seq<Setting>) {
    ValidModes(modes) && (s == Encode(modes) || (s == [] && modes == []))
  }

  lemma {:induction false} ArgsConcat(a: seq<Setting>, b: seq<Setting>)
    ensures Args(a + b) == Args(a) + Args(b)
    decreases |a|
  {
    if a == [] {
      assert a + b == b;
    } else {
      assert (a + b)[1..] == a[1..] + b;
      ArgsConcat(a[1..], b);
    }
  }

  lemma {:induction false} ArgsAreWords(modes: seq<Setting>)
    requires forall i | 0 <= i < |modes| :: ValidSetting(modes[i])
    ensures AllWords(Args(modes))
    decreases |modes|
  {
    if modes != [] {
      ArgsAreWords(modes[1..]);
    }
  }

  /** Reading the two halves of the string back. */
  lemma Decode(s: string, modes: seq<Setting>)
    requires Represents(s, modes)
    ensures GetWord(0, s) == Flags(modes)
    ensures ToWord(1, s) == Spaced(Args(modes))
  {
    var flags := Flags(modes);
    ArgsAreWords(modes);
    if s != [] {
      var args := Spaced(Args(modes));
      SpacedLeads(Args(modes), []);
      assert args + [] == args;
      DropWordAfter(flags, args);
    }
  }

  // --- the map it stands for ---------------------------------------------------------------

  /** The argument a flag is mapped to. */
  function Lookup(modes: seq<Setting>, flag: char): Option<string> {
    if modes == [] then None
    else if modes[0].flag == flag then Some(modes[0].arg)
    else Lookup(modes[1..], flag)
  }

  function Without(modes: seq<Setting>, flag: char): (r: seq<Setting>)
    ensures |r| <= |modes|
  {
    if modes == [] then []
    else (if modes[0].flag == flag then [] else [modes[0]]) + Without(modes[1..], flag)
  }

  lemma {:induction false} LookupFinds(modes: seq<Setting>, i: nat)
    requires ValidModes(modes) && i < |modes|
    ensures Lookup(modes, modes[i].flag) == Some(modes[i].arg)
    decreases |modes|
  {
    if i > 0 {
      LookupFinds(modes[1..], i - 1);
    }
  }

  lemma {:induction false} LookupMisses(modes: seq<Setting>, flag: char)
    requires forall i | 0 <= i < |modes| :: modes[i].flag != flag
    ensures Lookup(modes, flag) == None && Without(modes, flag) == modes
    decreases |modes|
  {
    if modes != [] {
      LookupMisses(modes[1..], flag);
    }
  }

  lemma {:induction false} WithoutElement(modes: seq<Setting>, flag: char, i: nat)
    requires i < |Without(modes, flag)|
    ensures Without(modes, flag)[i] in modes && Without(modes, flag)[i].flag != flag
    decreases |modes|
  {
    if modes[0].flag == flag {
      WithoutElement(modes[1..], flag, i);
    } else if i > 0 {
      WithoutElement(modes[1..], flag, i - 1);
    }
  }

  lemma {:induction false} WithoutStaysValid(modes: seq<Setting>, flag: char)
    requires ValidModes(modes)
    ensures ValidModes(Without(modes, flag))
    ensures Lookup(modes, flag).Some? ==> |Without(modes, flag)| < |modes|
    decreases |modes|
  {
    if modes != [] {
      var r := Without(modes[1..], flag);
      WithoutStaysValid(modes[1..], flag);
      forall i | 0 <= i < |r| ensures r[i].flag != modes[0].flag {
        WithoutElement(modes[1..], flag, i);
      }
    }
  }

  lemma {:induction false} WithoutIsRemoval(modes: seq<Setting>, flag: char, f: char)
    ensures Lookup(Without(modes, flag), f) == if f == flag then None else Lookup(modes, f)
    decreases |modes|
  {
    if modes != [] {
      WithoutIsRemoval(modes[1..], flag, f);
      assert [] + Without(modes[1..], flag) == Without(modes[1..], flag);
      assert ([modes[0]] + Without(modes[1..], flag))[1..] == Without(modes[1..], flag);
    }
  }

  lemma {:induction false} AppendIsUpdate(modes: seq<Setting>, s: Setting, f: char)
    requires Lookup(modes, s.flag).None?
    ensures Lookup(modes + [s], f) == if f == s.flag then Some(s.arg) else Lookup(modes, f)
    decreases |modes|
  {
    if modes != [] {
      assert (modes + [s])[1..] == modes[1..] + [s];
      AppendIsUpdate(modes[1..], s, f);
    }
  }

  lemma {:induction false} WithoutConcat(a: seq<Setting>, b: seq<Setting>, flag: char)
    ensures Without(a + b, flag) == Without(a, flag) + Without(b, flag)
    decreases |a|
  {
    if a == [] {
      assert a + b == b;
    } else {
      assert (a + b)[1..] == a[1..] + b;
      WithoutConcat(a[1..], b, flag);
    }
  }

  // --- the operations -----------------------------------------------------------------------

  /** RemFlag() between two flags: the flags in `done` are kept, those in `rest` are ahead. */
  ghost predicate Scanning(newmode: string, newarg: string, flag: char, modes: seq<Setting>,
                           done: seq<Setting>, rest: seq<Setting>) {
    && newmode == Flags(done + rest) && newarg == Spaced(Args(done + rest))
    && Without(modes, flag) == done + Without(rest, flag)
    && (forall i | 0 <= i < |done + rest| :: ValidSetting((done + rest)[i]))
  }

  /** The loop of RemFlag() over the two halves of the string. */
  method RemoveFlag(flags: string, args: string, flag: char, ghost modes: seq<Setting>)
    returns (newmode: string, newarg: string)
    requires ValidModes(modes) && flags == Flags(modes) && args == Spaced(Args(modes))
    ensures newmode == Flags(Without(modes, flag))
    ensures newarg == Spaced(Args(Without(modes, flag)))
  {
    newmode, newarg := flags, args;
    var curr, count := 0, 0;
    ghost var done, rest := [], modes;
    assert done + rest == modes && done + Without(rest, flag) == Without(rest, flag);
    while curr < |newmode|
      invariant Scanning(newmode, newarg, flag, modes, done, rest)
      invariant curr == |done| && count == |Args(done)|
      decreases |rest|
    {
      assert newmode[curr] == rest[0].flag;
      var ptr := HasArg(newmode[curr]);
      if newmode[curr] == flag {
        ScanDrops(newmode, newarg, flag, modes, done, rest);
        newmode := newmode[..curr] + newmode[curr + 1..];
        if ptr {
          var to := ScanToWord(count, newarg);
          var from := ScanToWord(count + 1, newarg);
          newarg := newarg[..|newarg| - |to|] + from;
        }
      } else {
        ScanKeeps(newmode, newarg, flag, modes, done, rest);
        if ptr {
          count := count + 1;
        }
        curr := curr + 1;
        done := done + [rest[0]];
      }
      rest := rest[1..];
    }
    assert rest == [] && done + rest == done && done + Without(rest, flag) == done;
  }

  /** The mode string of a channel. */
  class ModeBuffer {
    var mode: string
    ghost var modes: seq<Setting>

    ghost predicate Valid()
      reads this
    {
      Represents(mode, modes)
    }

    constructor ()
      ensures Valid() && modes == []
    {
      mode, modes := [], [];
    }

    /** AddFlag(): map update. */
    method AddFlag(flag: char, arg: string)
      requires Valid() && ValidSetting(Setting(flag, arg))
      requires |modes| < MAX_FLAGS || Lookup(modes, flag).Some?
      modifies this
      ensures Valid()
      ensures modes == Without(old(modes), flag) + [Setting(flag, arg)]
      ensures forall f :: Lookup(modes, f) == if f == flag then Some(arg) else Lookup(old(modes), f)
    {
      ghost var kept := Without(modes, flag);
      WithoutStaysValid(modes, flag);
      FlagInString(mode, modes, flag);
      if flag in mode {
        RemFlag(flag);
      }
      assert modes == kept;
      var newmode := CopyWord(0, mode);
      var newarg := ScanToWord(1, mode);
      Decode(mode, modes);
      if arg != [] {
        newarg := newarg + (arg + " ");
      }
      WithoutIsRemoval(old(modes), flag, flag);
      AppendStaysValid(kept, Setting(flag, arg));
      EncodeAppend(kept, Setting(flag, arg));
      AddMeansUpdate(old(modes), Setting(flag, arg));
      mode := newmode + [flag] + " " + newarg;
      modes := kept + [Setting(flag, arg)];
    }

    /** RemFlag(): map removal; with an 'l' or 'k' its own argument goes, and no other. */
    method RemFlag(flag: char)
      requires Valid()
      modifies this
      ensures Valid() && mode != []
      ensures modes == Without(old(modes), flag)
      ensures forall f :: Lookup(modes, f) == if f == flag then None else Lookup(old(modes), f)
    {
      Decode(mode, modes);
      var newmode := CopyWord(0, mode);
      var newarg := ScanToWord(1, mode);
      newmode, newarg := RemoveFlag(newmode, newarg, flag, modes);
      WithoutStaysValid(modes, flag);
      RemMeansRemoval(modes, flag);
      mode := newmode + " " + newarg;
      modes := Without(modes, flag);
    }

    /** IsSet(): map lookup; for 'l' and 'k' the argument has to agree as well. */
    method IsSet(flag: char, param: string) returns (out: bool)
      requires Valid()
      ensures out <==> Lookup(modes, flag).Some? && (HasArg(flag) ==> Lookup(modes, flag).value == param)
    {
      var setflags := CopyWord(0, mode);
      Decode(mode, modes);
      ArgsAreWords(modes);
      var i, j := 0, 0;
      while i < |setflags| && setflags[i] != flag
        invariant 0 <= i <= |setflags|
        invariant forall n | 0 <= n < i :: modes[n].flag != flag
        invariant j == |Args(modes[..i])|
      {
        assert modes[..i + 1] == modes[..i] + [modes[i]];
        ArgsConcat(modes[..i], [modes[i]]);
        if setflags[i] == 'l' || setflags[i] == 'k' {
          j := j + 1;
        }
        i := i + 1;
      }
      if i < |setflags| {
        LookupFinds(modes, i);
        if flag == 'l' || flag == 'k' {
          ArgOfFlag(modes, i);
          WordAfterHead(Flags(modes), Args(modes), [], j);
          assert Spaced(Args(modes)) + [] == Spaced(Args(modes));
          var setparam := CopyWord(j + 1, mode);
          out := setparam == param;
        } else {
          out := true;
        }
      } else {
        LookupMisses(modes, flag);
        out := false;
      }
    }
  }

  // --- proof steps ----------------------------------------------------------------------------

  /** strchr() may also find the flag inside an argument; then nothing is removed. */
  lemma FlagInString(s: string, modes: seq<Setting>, flag: char)
    requires Represents(s, modes)
    ensures Lookup(modes, flag).Some? ==> flag in s && |Without(modes, flag)| < |modes|
    ensures Lookup(modes, flag).None? ==> Without(modes, flag) == modes
  {
    if i :| 0 <= i < |modes| && modes[i].flag == flag {
      assert s[i] == Flags(modes)[i];
      LookupFinds(modes, i);
      WithoutStaysValid(modes, flag);
    } else {
      LookupMisses(modes, flag);
    }
  }

  lemma AppendStaysValid(modes: seq<Setting>, s: Setting)
    requires ValidModes(modes) && ValidSetting(s)
    requires Lookup(modes, s.flag).None? && |modes| < MAX_FLAGS
    ensures ValidModes(modes + [s])
  {
    forall i | 0 <= i < |modes| ensures modes[i].flag != s.flag {
      if modes[i].flag == s.flag {
        LookupFinds(modes, i);
      }
    }
  }

  /** What AddFlag() prints when the flag is not set yet. */
  lemma EncodeAppend(modes: seq<Setting>, s: Setting)
    requires ValidSetting(s)
    ensures Encode(modes + [s]) ==
            Flags(modes) + [s.flag] + " " +
            (Spaced(Args(modes)) + (if s.arg == [] then [] else s.arg + " "))
  {
    assert Flags(modes + [s]) == Flags(modes) + [s.flag];
    SpacedAppend(modes, s);
  }

  lemma SpacedAppend(modes: seq<Setting>, s: Setting)
    requires ValidSetting(s)
    ensures Spaced(Args(modes + [s])) == Spaced(Args(modes)) + (if s.arg == [] then [] else s.arg + " ")
  {
    var args := if s.arg == [] then [] else [s.arg];
    ArgsConcat(modes, [s]);
    assert Args([s]) == args;
    SpacedConcat(Args(modes), args);
    assert Spaced([s.arg]) == s.arg + " " + [];
  }

  lemma AddMeansUpdate(modes: seq<Setting>, s: Setting)
    ensures forall f :: Lookup(Without(modes, s.flag) + [s], f) ==
              if f == s.flag then Some(s.arg) else Lookup(modes, f)
  {
    forall f ensures Lookup(Without(modes, s.flag) + [s], f) ==
                     if f == s.flag then Some(s.arg) else Lookup(modes, f)
    {
      WithoutIsRemoval(modes, s.flag, s.flag);
      WithoutIsRemoval(modes, s.flag, f);
      AppendIsUpdate(Without(modes, s.flag), s, f);
    }
  }

  lemma RemMeansRemoval(modes: seq<Setting>, flag: char)
    ensures forall f :: Lookup(Without(modes, flag), f) == if f == flag then None else Lookup(modes, f)
  {
    forall f ensures Lookup(Without(modes, flag), f) == if f == flag then None else Lookup(modes, f) {
      WithoutIsRemoval(modes, flag, f);
    }
  }

  /** memmove(ToWord(count), ToWord(count + 1)) takes out one word. */
  lemma CutWord(a: seq<string>, w: string, b: seq<string>)
    requires AllWords(a + [w] + b)
    ensures var args := Spaced(a + [w] + b);
            args[..|args| - |ToWord(|a|, args)|] + ToWord(|a| + 1, args) == Spaced(a + b)
  {
    var all, wb := a + [w] + b, [w] + b;
    assert all[|a|..] == wb && all[|a| + 1..] == b && all == a + wb;
    assert Spaced(all) + [] == Spaced(all) && Spaced(wb) + [] == Spaced(wb) && Spaced(b) + [] == Spaced(b);
    ToWordInList(all, [], |a|);
    ToWordInList(all, [], |a| + 1);
    SpacedConcat(a, wb);
    SpacedConcat(a, b);
    TakeFirst(Spaced(a), Spaced(wb));
  }

  lemma TakeFirst(a: string, b: string)
    ensures (a + b)[..|a + b| - |b|] == a
  {
  }

  lemma ArgsAround(done: seq<Setting>, s: Setting, rest: seq<Setting>)
    ensures Args(done + [s] + rest) == Args(done) + (if HasArg(s.flag) then [s.arg] else []) + Args(rest)
    ensures Args(done + rest) == Args(done) + Args(rest)
  {
    ArgsConcat(done, [s]);
    ArgsConcat(done + [s], rest);
    ArgsConcat(done, rest);
    ArgsOfOne(s);
  }

  lemma ArgsOfOne(s: Setting)
    ensures Args([s]) == if HasArg(s.flag) then [s.arg] else []
  {
  }

  lemma DropArg(done: seq<Setting>, s: Setting, rest: seq<Setting>)
    requires forall i | 0 <= i < |done + [s] + rest| :: ValidSetting((done + [s] + rest)[i])
    requires HasArg(s.flag)
    ensures var args := Spaced(Args(done + [s] + rest));
            var n := |Args(done)|;
            args[..|args| - |ToWord(n, args)|] + ToWord(n + 1, args) == Spaced(Args(done + rest))
  {
    ArgsAround(done, s, rest);
    ArgsAreWords(done + [s] + rest);
    CutWord(Args(done), s.arg, Args(rest));
  }

  lemma ScanKeeps(newmode: string, newarg: string, flag: char, modes: seq<Setting>,
                  done: seq<Setting>, rest: seq<Setting>)
    requires Scanning(newmode, newarg, flag, modes, done, rest)
    requires rest != [] && rest[0].flag != flag
    ensures Scanning(newmode, newarg, flag, modes, done + [rest[0]], rest[1..])
    ensures |Args(done + [rest[0]])| == |Args(done)| + if HasArg(rest[0].flag) then 1 else 0
  {
    ArgsConcat(done, [rest[0]]);
    assert done + rest == done + [rest[0]] + rest[1..];
    assert done + ([rest[0]] + Without(rest[1..], flag)) == done + [rest[0]] + Without(rest[1..], flag);
  }

  lemma ScanDrops(newmode: string, newarg: string, flag: char, modes: seq<Setting>,
                  done: seq<Setting>, rest: seq<Setting>)
    requires Scanning(newmode, newarg, flag, modes, done, rest)
    requires rest != [] && rest[0].flag == flag
    ensures var n := |Args(done)|;
            Scanning(newmode[..|done|] + newmode[|done| + 1..],
                     if HasArg(flag) then newarg[..|newarg| - |ToWord(n, newarg)|] + ToWord(n + 1, newarg) else newarg,
                     flag, modes, done, rest[1..])
  {
    var s, after := rest[0], rest[1..];
    assert done + rest == done + [s] + after;
    assert [] + Without(after, flag) == Without(after, flag);
    DropSetting(done, s, after);
    if HasArg(flag) {
      DropArg(done, s, after);
    } else {
      DropPlain(done, s, after);
    }
  }

  lemma DropSetting(done: seq<Setting>, s: Setting, rest: seq<Setting>)
    ensures Flags(done + [s] + rest)[..|done|] + Flags(done + [s] + rest)[|done| + 1..] == Flags(done + rest)
    ensures (forall i | 0 <= i < |done + [s] + rest| :: ValidSetting((done + [s] + rest)[i])) ==>
              forall i | 0 <= i < |done + rest| :: ValidSetting((done + rest)[i])
  {
    assert forall i | 0 <= i < |done + rest| ::
        (done + rest)[i] == (done + [s] + rest)[if i < |done| then i else i + 1];
  }

  lemma DropPlain(done: seq<Setting>, s: Setting, rest: seq<Setting>)
    requires !HasArg(s.flag)
    ensures Args(done + [s] + rest) == Args(done + rest)
  {
    ArgsAround(done, s, rest);
    assert Args(done) + [] == Args(done);
  }

  /** The argument of the flag at `i` is found after as many arguments as flags before it need. */
  lemma ArgOfFlag(modes: seq<Setting>, i: nat)
    requires i < |modes| && HasArg(modes[i].flag)
    ensures var n := |Args(modes[..i])|;
            n < |Args(modes)| && Args(modes)[n] == modes[i].arg
  {
    assert modes == modes[..i] + ([modes[i]] + modes[i + 1..]);
    ArgsConcat(modes[..i], [modes[i]] + modes[i + 1..]);
  }
}
