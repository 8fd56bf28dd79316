/** `setup_argv` of src/main.cpp: the argument block handed to the guest, and the loop with
    which the guest's start-up code compacts its 64-bit pointers in place. */
module Argv {
  import opened Bytes
  import opened ElfFile

  const BASE: nat := 0x00F0_0000

  const BLOCK: nat := 0x1_0000

  const ENVP: nat := BASE + 0x600

  /** A string without its terminator. */
  type Text = s: seq<byte> | forall c :: c in s ==> c != 0

  const DEFAULT_ARGS: seq<byte> := [0x62, 0x6f, 0x6f, 0x74, 0x5f, 0x66, 0x72, 0x6f, 0x6d, 0x3d,
                                    0x67, 0x61, 0x6d, 0x65, 0x64, 0x61, 0x74, 0x61]

  // ---- Splitting the argument string -------------------------------------------

  predicate IsDelim(c: byte) {
    c == 0x20 || c == 0x09
  }

  function SkipDelims(s: Text): (r: Text)
    ensures |r| <= |s| && (r != [] ==> !IsDelim(r[0]))
  {
    if s != [] && IsDelim(s[0]) then SkipDelims(s[1..]) else s
  }

  function RunLength(s: Text): (n: nat)
    ensures n <= |s| && (s != [] && !IsDelim(s[0]) ==> n > 0)
    ensures forall k :: 0 <= k < n ==> !IsDelim(s[k])
    ensures n < |s| ==> IsDelim(s[n])
  {
    if s == [] || IsDelim(s[0]) then 0 else RunLength(s[1..]) + 1
  }

  /** What strtok still has to deliver: the delimiter after a token is consumed with it. */
  function AfterToken(s: Text): (r: Text)
    ensures |r| < |s| || s == []
  {
    var n := RunLength(s);
    if n < |s| then s[n + 1..] else []
  }

  /** The maximal runs without blanks or tabs. */
  function Tokens(s: Text): seq<Text>
    decreases |s|
  {
    var t := SkipDelims(s);
    if t == [] then [] else [t[..RunLength(t)]] + Tokens(AfterToken(t))
  }

  function TextSize(toks: seq<Text>): nat {
    if toks == [] then 0 else TextSize(toks[..|toks| - 1]) + |toks[|toks| - 1]| + 1
  }

  /** The 511 characters that are kept of the argument string, or of the default. */
  function Kept(extra: Text): Text {
    var text := if extra == [] then DEFAULT_ARGS else extra;
    if |text| > 511 then text[..511] else text
  }

  function First29(toks: seq<Text>): (r: seq<Text>)
    ensures |r| <= 29 && |r| <= |toks|
  {
    if |toks| > 29 then toks[..29] else toks
  }

  /** The strings the block holds besides argv[0]. */
  function Used(extra: Text): seq<Text> {
    First29(Tokens(Kept(extra)))
  }

  lemma {:induction false} SizeOfCons(t: Text, toks: seq<Text>)
    ensures TextSize([t] + toks) == |t| + 1 + TextSize(toks)
  {
    if toks != [] {
      SizeOfCons(t, toks[..|toks| - 1]);
      assert ([t] + toks)[..|toks|] == [t] + toks[..|toks| - 1];
    } else {
      assert [t] + toks == [t] && [t][..0] == [];
    }
  }

  lemma {:induction false} TokensFit(s: Text)
    ensures TextSize(Tokens(s)) <= |s| + 1
    ensures Tokens(s) != [] ==> Tokens(s)[0] != []
    decreases |s|
  {
    var t := SkipDelims(s);
    if t != [] {
      TokensFit(AfterToken(t));
      SizeOfCons(t[..RunLength(t)], Tokens(AfterToken(t)));
      if RunLength(t) == |t| {
        assert Tokens([]) == [];
      }
    }
  }

  lemma {:induction false} PrefixSize(toks: seq<Text>, n: nat)
    requires n <= |toks|
    ensures TextSize(toks[..n]) <= TextSize(toks)
  {
    if n < |toks| {
      PrefixSize(toks[..|toks| - 1], n);
      assert toks[..|toks| - 1][..n] == toks[..n];
    } else {
      assert toks[..n] == toks;
    }
  }

  lemma UsedFits(extra: Text)
    ensures |Used(extra)| <= 29 && TextSize(Used(extra)) <= 512
  {
    hide Tokens, TextSize;
    var toks := Tokens(Kept(extra));
    TokensFit(Kept(extra));
    if |toks| > 29 {
      PrefixSize(toks, 29);
    }
  }

  // ---- What the tokens are ----------------------------------------------------

  predicate Blank(s: Text) {
    forall c :: c in s ==> c == 0x20 || c == 0x09
  }

  predicate Word(t: Text) {
    t != [] && forall c :: c in t ==> c != 0x20 && c != 0x09
  }

  /** The words with a separator before each and one at the end. */
  function Joined(words: seq<Text>, seps: seq<Text>): Text
    requires |seps| == |words| + 1
  {
    if words == [] then seps[0] else seps[0] + (words[0] + Joined(words[1..], seps[1..]))
  }

  lemma {:induction false} BlankSkipped(blank: Text, s: Text)
    requires Blank(blank)
    ensures Tokens(blank + s) == Tokens(s)
  {
    if blank == [] {
      assert blank + s == s;
    } else {
      assert (blank + s)[1..] == blank[1..] + s && (blank + s)[0] == blank[0];
      assert blank[0] in blank && forall c :: c in blank[1..] ==> c in blank;
      BlankSkipped(blank[1..], s);
      assert SkipDelims(blank + s) == SkipDelims(blank[1..] + s);
    }
  }

  lemma {:induction false} RunOfWord(t: Text, u: Text)
    requires (forall c :: c in t ==> !IsDelim(c)) && (u != [] ==> IsDelim(u[0]))
    ensures RunLength(t + u) == |t|
  {
    if t == [] {
      assert t + u == u;
    } else {
      assert (t + u)[1..] == t[1..] + u;
      RunOfWord(t[1..], u);
    }
  }

  lemma WordTaken(t: Text, u: Text)
    requires Word(t) && (u != [] ==> IsDelim(u[0]))
    ensures Tokens(t + u) == [t] + Tokens(u)
  {
    var s := t + u;
    RunOfWord(t, u);
    assert s[0] == t[0] && SkipDelims(s) == s;
    assert s[..|t|] == t;
    if u == [] {
      assert AfterToken(s) == [];
    } else {
      assert AfterToken(s) == u[1..];
      assert u == [u[0]] + u[1..];
      BlankSkipped([u[0]], u[1..]);
    }
  }

  /** Splitting gives back the words of any string: words without blanks or tabs, at least one
      blank or tab between any two, any number before the first and after the last. */
  lemma {:induction false} TokensOfJoined(words: seq<Text>, seps: seq<Text>)
    requires |seps| == |words| + 1 && (forall w :: w in words ==> Word(w)) && (forall s :: s in seps ==> Blank(s))
    requires forall i :: 0 < i < |words| ==> seps[i] != []
    ensures Tokens(Joined(words, seps)) == words
    decreases |words|
  {
    hide Tokens;
    if words == [] {
      assert seps[0] + [] == seps[0];
      BlankSkipped(seps[0], []);
      NothingTaken();
    } else {
      var rest := Joined(words[1..], seps[1..]);
      TokensOfJoined(words[1..], seps[1..]);
      assert seps[1..][0] == seps[1] && Blank(seps[1]) && seps[0] in seps && words[0] in words;
      if seps[1] != [] {
        assert rest[0] == seps[1][0] && seps[1][0] in seps[1];
      } else {
        assert words[1..] == [];
      }
      BlankSkipped(seps[0], words[0] + rest);
      WordTaken(words[0], rest);
    }
  }

  lemma NothingTaken()
    ensures Tokens([]) == []
  {
  }

  /** The arguments are the first 29 words of an argument string of up to 511 characters; a longer
      one is cut there. */
  lemma ArgumentsAreWords(extra: Text, words: seq<Text>, seps: seq<Text>)
    requires |seps| == |words| + 1 && (forall w :: w in words ==> Word(w)) && (forall s :: s in seps ==> Blank(s))
    requires forall i :: 0 < i < |words| ==> seps[i] != []
    requires extra != [] && (if |extra| > 511 then extra[..511] else extra) == Joined(words, seps)
    ensures Used(extra) == if |words| > 29 then words[..29] else words
  {
    TokensOfJoined(words, seps);
  }

  lemma DefaultText()
    ensures |DEFAULT_ARGS| == |"boot_from=gamedata"|
    ensures forall i :: 0 <= i < |DEFAULT_ARGS| ==> DEFAULT_ARGS[i] == "boot_from=gamedata"[i] as int
    ensures forall c :: c in DEFAULT_ARGS ==> c > 0x20
  {
  }

  /** Without one there is one argument. */
  lemma DefaultArgument()
    ensures |Used([])| == 1 && |Used([])[0]| == |"boot_from=gamedata"|
    ensures forall i :: 0 <= i < |"boot_from=gamedata"| ==> Used([])[0][i] == "boot_from=gamedata"[i] as int
  {
    DefaultText();
    OnlyWord(DEFAULT_ARGS);
    assert Kept([]) == DEFAULT_ARGS;
    hide Kept, Tokens;
  }

  lemma OnlyWord(d: Text)
    requires Word(d)
    ensures Tokens(d) == [d]
  {
    WordTaken(d, []);
    NothingTaken();
    assert d + [] == d;
  }

  // ---- The layout -------------------------------------------------------------

  function Up16(x: nat): nat {
    (x + 15) / 16 * 16
  }

  /** Where token j goes, relative to the block. */
  function Pos(toks: seq<Text>, j: nat): (p: nat)
    requires j <= |toks|
    ensures p >= 0x180
  {
    if j == 0 then 0x180 else Up16(Pos(toks, j - 1) + |toks[j - 1]| + 1)
  }

  lemma {:induction false} PosBound(toks: seq<Text>, j: nat)
    requires j <= |toks|
    ensures Pos(toks, j) <= 0x180 + TextSize(toks[..j]) + 15 * j
  {
    if j > 0 {
      PosBound(toks, j - 1);
      assert toks[..j][..j - 1] == toks[..j - 1];
    }
  }

  /** The strings end below the environment word. */
  lemma StringsBelowEnvp(extra: Text, j: nat)
    requires j <= |Used(extra)|
    ensures Pos(Used(extra), j) < 0x600
  {
    var toks := Used(extra);
    UsedFits(extra);
    PosBound(toks, j);
    PrefixSize(toks, j);
  }

  lemma {:induction false} PosOrdered(toks: seq<Text>, i: nat, j: nat)
    requires i < j <= |toks|
    ensures Pos(toks, i) + |toks[i]| + 1 <= Pos(toks, j)
  {
    if i < j - 1 {
      PosOrdered(toks, i, j - 1);
    }
  }

  /** Strings are packed: the first goes 0x180 past the base, each other one to the next multiple
      of 16 after the terminator before it. */
  lemma PosIsTight(toks: seq<Text>, j: nat)
    requires j < |toks|
    ensures Pos(toks, 0) == 0x180
    ensures Pos(toks, j + 1) % 16 == 0 && 0 <= Pos(toks, j + 1) - (Pos(toks, j) + |toks[j]| + 1) < 16
  {
  }

  /** Token strings end below 0x600 and the pointer table below 0x100. */
  predicate Roomy(toks: seq<Text>) {
    |toks| <= 29 && forall j: nat :: j <= |toks| ==> Pos(toks, j) < 0x600
  }

  /** s and its terminator at a. */
  predicate Str(mem: seq<byte>, a: nat, s: Text) {
    SliceIs(mem, a, s + [0])
  }

  predicate Slot(mem: seq<byte>, i: nat, v: nat) {
    SliceIs(mem, BASE + 8 * i, BeBytes(v, 8))
  }

  /** The block once j tokens are placed. */
  predicate Ready(mem: seq<byte>, argv0: Text, toks: seq<Text>, j: nat)
    requires j <= |toks|
  {
    && |mem| == GUEST
    && Slot(mem, 0, BASE + 0x100) && Str(mem, BASE + 0x100, argv0)
    && (forall i: nat :: i < j ==> Slot(mem, i + 1, BASE + Pos(toks, i)) && Str(mem, BASE + Pos(toks, i), toks[i]))
  }

  /** The two writes of one pass of the token loop. */
  function WithToken(mem: seq<byte>, toks: seq<Text>, j: nat): (r: seq<byte>)
    requires |mem| == GUEST && j < |toks| && j < 30 && Pos(toks, j) + |toks[j]| < 0x600
    ensures |r| == GUEST
  {
    Splice(Splice(mem, BASE + Pos(toks, j), toks[j] + [0]), BASE + 8 * (j + 1), BeBytes(BASE + Pos(toks, j), 8))
  }

  /** A string or pointer away from both writes stays. */
  lemma TokenKeeps(mem: seq<byte>, toks: seq<Text>, j: nat, o: nat, s: seq<byte>)
    requires |mem| == GUEST && j < |toks| && j < 30 && Pos(toks, j) + |toks[j]| < 0x600
    requires SliceIs(mem, o, s)
    requires o + |s| <= BASE + Pos(toks, j) || BASE + Pos(toks, j) + |toks[j]| + 1 <= o
    requires o + |s| <= BASE + 8 * (j + 1) || BASE + 8 * (j + 2) <= o
    ensures SliceIs(WithToken(mem, toks, j), o, s)
  {
    hide SliceIs, Pos;
    var str := toks[j] + [0];
    SliceKept(mem, BASE + Pos(toks, j), str, o, s);
    SliceKept(Splice(mem, BASE + Pos(toks, j), str), BASE + 8 * (j + 1), BeBytes(BASE + Pos(toks, j), 8), o, s);
  }

  lemma TokenWritten(mem: seq<byte>, toks: seq<Text>, j: nat)
    requires |mem| == GUEST && j < |toks| && j < 30 && Pos(toks, j) + |toks[j]| < 0x600
    ensures Slot(WithToken(mem, toks, j), j + 1, BASE + Pos(toks, j))
    ensures Str(WithToken(mem, toks, j), BASE + Pos(toks, j), toks[j])
  {
    hide SliceIs, Pos;
    var str := toks[j] + [0];
    var m1 := Splice(mem, BASE + Pos(toks, j), str);
    SliceWritten(mem, BASE + Pos(toks, j), str);
    SliceWritten(m1, BASE + 8 * (j + 1), BeBytes(BASE + Pos(toks, j), 8));
    SliceKept(m1, BASE + 8 * (j + 1), BeBytes(BASE + Pos(toks, j), 8), BASE + Pos(toks, j), str);
  }

  lemma TokenFits(toks: seq<Text>, j: nat)
    requires j < |toks| && Roomy(toks)
    ensures j < 29 && Pos(toks, j) + |toks[j]| < 0x600
  {
    assert Pos(toks, j + 1) < 0x600;
    PosOrdered(toks, j, j + 1);
  }

  lemma PlaceToken(mem: seq<byte>, argv0: Text, toks: seq<Text>, j: nat)
    requires j < |toks| && Roomy(toks) && |argv0| < 128 && Ready(mem, argv0, toks, j)
    ensures Pos(toks, j) + |toks[j]| < 0x600
    ensures Ready(WithToken(mem, toks, j), argv0, toks, j + 1)
  {
    hide SliceIs, Pos, Roomy, WithToken;
    TokenFits(toks, j);
    TokenWritten(mem, toks, j);
    TokenKeeps(mem, toks, j, BASE, BeBytes(BASE + 0x100, 8));
    TokenKeeps(mem, toks, j, BASE + 0x100, argv0 + [0]);
    var m := WithToken(mem, toks, j);
    forall i: nat | i < j + 1
      ensures Slot(m, i + 1, BASE + Pos(toks, i)) && Str(m, BASE + Pos(toks, i), toks[i])
    {
      if i < j {
        PosOrdered(toks, i, j);
        assert Slot(mem, i + 1, BASE + Pos(toks, i));
        TokenKeeps(mem, toks, j, BASE + 8 * (i + 1), BeBytes(BASE + Pos(toks, i), 8));
        TokenKeeps(mem, toks, j, BASE + Pos(toks, i), toks[i] + [0]);
      }
    }
  }

  /** The finished block: every pointer, its string, the terminating null pointer and the
      empty environment. */
  predicate BlockIs(mem: seq<byte>, argv0: Text, toks: seq<Text>) {
    Ready(mem, argv0, toks, |toks|) && Slot(mem, |toks| + 1, 0) && SliceIs(mem, ENVP, BeBytes(0, 8))
  }

  // ---- Writing the block ------------------------------------------------------

  function Tokened(mem: seq<byte>, toks: seq<Text>, j: nat): (r: seq<byte>)
    requires |mem| == GUEST && j <= |toks| && Roomy(toks)
    ensures |r| == GUEST
    decreases j
  {
    if j == 0 then mem
    else
      TokenFits(toks, j - 1);
      WithToken(Tokened(mem, toks, j - 1), toks, j - 1)
  }

  /** Memory with the block cleared and argv[0] in place. */
  function Started(mem: seq<byte>, argv0: Text): (r: seq<byte>)
    requires |mem| == GUEST && BASE + 0x100 + |argv0| < GUEST
    ensures |r| == GUEST
  {
    Splice(Splice(Splice(mem, BASE, seq(BLOCK, _ => 0)), BASE + 0x100, argv0 + [0]), BASE, BeBytes(BASE + 0x100, 8))
  }

  function FinalMemory(mem: seq<byte>, argv0: Text, toks: seq<Text>): (r: seq<byte>)
    requires |mem| == GUEST && BASE + 0x100 + |argv0| < GUEST && Roomy(toks)
    ensures |r| == GUEST
  {
    var placed := Tokened(Started(mem, argv0), toks, |toks|);
    Splice(Splice(placed, BASE + 8 * (|toks| + 1), BeBytes(0, 8)), ENVP, BeBytes(0, 8))
  }

  lemma UsedIsRoomy(extra: Text)
    ensures Roomy(Used(extra))
  {
    UsedFits(extra);
    forall j: nat | j <= |Used(extra)| ensures Pos(Used(extra), j) < 0x600 {
      StringsBelowEnvp(extra, j);
    }
  }

  /** The tokens still to be taken when tok is in hand and rest is unread. */
  function Pending(tok: Text, rest: Text): seq<Text> {
    if tok == [] then [] else [tok] + Tokens(rest)
  }

  /** strtok's next token, empty when only delimiters are left. */
  method NextToken(s: Text) returns (tok: Text, rest: Text)
    ensures Tokens(s) == Pending(tok, rest)
    ensures |rest| < |s| || (rest == s && tok == [])
  {
    var t := s;
    while t != [] && IsDelim(t[0])
      invariant Tokens(t) == Tokens(s) && |t| <= |s|
    {
      t := t[1..];
    }
    if t == [] {
      return [], s;
    }
    var n := RunLength(t);
    assert SkipDelims(t) == t;
    return t[..n], AfterToken(t);
  }

  /** One pass of the token loop; returns the next free string position. */
  method WriteToken(vm: array<byte>, tok: Text, nextStr: nat, argc: nat, ghost toks: seq<Text>) returns (next: nat)
    requires vm.Length == GUEST && Roomy(toks)
    requires 1 <= argc <= |toks| && toks[argc - 1] == tok && nextStr == Pos(toks, argc - 1)
    modifies vm
    ensures argc < 30 && nextStr + |tok| < 0x600
    ensures vm[..] == WithToken(old(vm[..]), toks, argc - 1)
    ensures next == Pos(toks, argc)
  {
    TokenFits(toks, argc - 1);
    WriteAt(vm, BASE + nextStr, tok + [0]);
    WriteAt(vm, BASE + argc * 8, BeBytes(BASE + nextStr, 8));
    next := nextStr + |tok| + 1;
    next := (next + 15) / 16 * 16;
  }

  method WriteTokens(vm: array<byte>, text: Text) returns (argc: nat)
    requires vm.Length == GUEST && Roomy(First29(Tokens(text)))
    modifies vm
    ensures argc == |First29(Tokens(text))| + 1
    ensures vm[..] == Tokened(old(vm[..]), First29(Tokens(text)), argc - 1)
  {
    hide Roomy, WithToken, Pos, Tokens, First29, Tokened, Pending;
    ghost var all, was := Tokens(text), vm[..];
    ghost var toks := First29(all);
    argc := 1;
    var nextStr := 0x180;
    FirstPos(toks);
    NothingTokened(was, toks);
    var tok, rest := NextToken(text);
    while tok != [] && argc < 30
      invariant 1 <= argc <= |toks| + 1
      invariant all[argc - 1..] == Pending(tok, rest)
      invariant nextStr == Pos(toks, argc - 1)
      invariant vm[..] == Tokened(was, toks, argc - 1)
      decreases 30 - argc
    {
      TokenAt(all, argc, tok, rest);
      TokenedStep(was, toks, argc);
      nextStr := WriteToken(vm, tok, nextStr, argc, toks);
      argc := argc + 1;
      tok, rest := NextToken(rest);
    }
    AllTaken(all, argc, tok, rest);
  }

  lemma TokenAt(all: seq<Text>, argc: nat, tok: Text, rest: Text)
    requires 1 <= argc < 30 && argc <= |First29(all)| + 1 && tok != [] && all[argc - 1..] == Pending(tok, rest)
    ensures argc <= |First29(all)| && First29(all)[argc - 1] == tok && all[argc..] == Tokens(rest)
  {
    assert all[argc - 1..][0] == tok && all[argc - 1..][1..] == Tokens(rest);
  }

  lemma AllTaken(all: seq<Text>, argc: nat, tok: Text, rest: Text)
    requires 1 <= argc <= |First29(all)| + 1
    requires argc == 30 || (tok == [] && all[argc - 1..] == Pending(tok, rest))
    ensures argc == |First29(all)| + 1
  {
    assert |all[argc - 1..]| == |all| - (argc - 1);
  }

  lemma NothingTokened(mem: seq<byte>, toks: seq<Text>)
    requires |mem| == GUEST && Roomy(toks)
    ensures Tokened(mem, toks, 0) == mem
  {
  }

  lemma TokenedStep(mem: seq<byte>, toks: seq<Text>, j: nat)
    requires |mem| == GUEST && 0 < j <= |toks| && Roomy(toks)
    ensures j < 30 && Pos(toks, j - 1) + |toks[j - 1]| < 0x600
    ensures Tokened(mem, toks, j) == WithToken(Tokened(mem, toks, j - 1), toks, j - 1)
  {
    TokenFits(toks, j - 1);
  }

  lemma FirstPos(toks: seq<Text>)
    ensures Pos(toks, 0) == 0x180
  {
  }

  /** The three results are the guest's first three argument registers. */
  method SetupArgv(vm: array<byte>, argv0: Text, extra: Text) returns (argc: nat, argv: nat, envp: nat)
    requires vm.Length == GUEST && BASE + 0x100 + |argv0| < GUEST
    modifies vm
    ensures Roomy(Used(extra)) && argc == |Used(extra)| + 1 && argv == 0x00F0_0000 && envp == 0x00F0_0600
    ensures vm[..] == FinalMemory(old(vm[..]), argv0, Used(extra))
  {
    hide Tokens, Tokened, Roomy, BeBytes, First29, Kept;
    UsedIsRoomy(extra);
    WriteAt(vm, BASE, seq(BLOCK, _ => 0));
    WriteAt(vm, BASE + 0x100, argv0 + [0]);
    WriteAt(vm, BASE, BeBytes(BASE + 0x100, 8));
    argc := WriteTokens(vm, Kept(extra));
    WriteAt(vm, BASE + argc * 8, BeBytes(0, 8));
    WriteAt(vm, ENVP, BeBytes(0, 8));
    argv, envp := BASE, ENVP;
  }

  // ---- What the block holds ----------------------------------------------------

  lemma {:induction false} TokensReady(mem: seq<byte>, argv0: Text, toks: seq<Text>, j: nat)
    requires |mem| == GUEST && j <= |toks| && Roomy(toks) && |argv0| < 128 && Ready(mem, argv0, toks, 0)
    ensures Ready(Tokened(mem, toks, j), argv0, toks, j)
  {
    hide Ready, Roomy, WithToken, Pos;
    if j > 0 {
      TokensReady(mem, argv0, toks, j - 1);
      PlaceToken(Tokened(mem, toks, j - 1), argv0, toks, j - 1);
    }
  }

  lemma StartedReady(mem: seq<byte>, argv0: Text, toks: seq<Text>)
    requires |mem| == GUEST && BASE + 0x100 + |argv0| < GUEST
    ensures Ready(Started(mem, argv0), argv0, toks, 0)
  {
    hide SliceIs;
    var m0 := Splice(mem, BASE, seq(BLOCK, _ => 0));
    var m1 := Splice(m0, BASE + 0x100, argv0 + [0]);
    SliceWritten(m0, BASE + 0x100, argv0 + [0]);
    SliceWritten(m1, BASE, BeBytes(BASE + 0x100, 8));
    SliceKept(m1, BASE, BeBytes(BASE + 0x100, 8), BASE + 0x100, argv0 + [0]);
  }

  /** Two writes away from s leave it. */
  lemma KeepBoth(mem: seq<byte>, a: nat, x: seq<byte>, b: nat, y: seq<byte>, o: nat, s: seq<byte>)
    requires a + |x| <= |mem| && b + |y| <= |mem| && SliceIs(mem, o, s)
    requires (o + |s| <= a || a + |x| <= o) && (o + |s| <= b || b + |y| <= o)
    ensures SliceIs(Splice(Splice(mem, a, x), b, y), o, s)
  {
    SliceKept(mem, a, x, o, s);
    SliceKept(Splice(mem, a, x), b, y, o, s);
  }

  /** With argv[0] below 128 characters, whatever the argument string, every pointer of the
      block leads to its own string, the pointers end in a null one, the environment is empty. */
  lemma BlockIsComplete(mem: seq<byte>, argv0: Text, toks: seq<Text>)
    requires |mem| == GUEST && |argv0| < 128 && Roomy(toks)
    ensures BlockIs(FinalMemory(mem, argv0, toks), argv0, toks)
  {
    hide SliceIs, Started, Tokened, Pos, BeBytes;
    var n := |toks|;
    StartedReady(mem, argv0, toks);
    TokensReady(Started(mem, argv0), argv0, toks, n);
    var m := Tokened(Started(mem, argv0), toks, n);
    var nul, final := BeBytes(0, 8), FinalMemory(mem, argv0, toks);
    SliceWritten(m, BASE + 8 * (n + 1), nul);
    SliceWritten(Splice(m, BASE + 8 * (n + 1), nul), ENVP, nul);
    SliceKept(Splice(m, BASE + 8 * (n + 1), nul), ENVP, nul, BASE + 8 * (n + 1), nul);
    KeepBoth(m, BASE + 8 * (n + 1), nul, ENVP, nul, BASE, BeBytes(BASE + 0x100, 8));
    KeepBoth(m, BASE + 8 * (n + 1), nul, ENVP, nul, BASE + 0x100, argv0 + [0]);
    forall i: nat | i < n
      ensures Slot(final, i + 1, BASE + Pos(toks, i)) && Str(final, BASE + Pos(toks, i), toks[i])
    {
      TokenFits(toks, i);
      assert Slot(m, i + 1, BASE + Pos(toks, i));
      KeepBoth(m, BASE + 8 * (n + 1), nul, ENVP, nul, BASE + 8 * (i + 1), BeBytes(BASE + Pos(toks, i), 8));
      KeepBoth(m, BASE + 8 * (n + 1), nul, ENVP, nul, BASE + Pos(toks, i), toks[i] + [0]);
    }
  }

  /** a lies in none of the first j tokens' strings. */
  predicate OutsideStrings(toks: seq<Text>, j: nat, a: nat)
    requires j <= |toks|
  {
    forall i: nat :: i < j ==> a < BASE + Pos(toks, i) || BASE + Pos(toks, i) + |toks[i]| < a
  }

  lemma {:induction false} TokenedElsewhere(mem: seq<byte>, toks: seq<Text>, j: nat, a: nat)
    requires |mem| == GUEST && j <= |toks| && Roomy(toks) && a < GUEST
    requires OutsideStrings(toks, j, a) && !(BASE <= a < BASE + 8 * (j + 1))
    ensures Tokened(mem, toks, j)[a] == mem[a]
  {
    hide Pos, BeBytes;
    if j > 0 {
      TokenFits(toks, j - 1);
      TokenedElsewhere(mem, toks, j - 1, a);
    }
  }

  /** Everything else: memory outside the 64 KiB block is unchanged, and inside it what is neither
      a pointer nor a string is zero. */
  lemma BlockElsewhere(mem: seq<byte>, argv0: Text, toks: seq<Text>, a: nat)
    requires |mem| == GUEST && |argv0| < 128 && Roomy(toks) && a < GUEST
    ensures !(0x00F0_0000 <= a < 0x00F1_0000) ==> FinalMemory(mem, argv0, toks)[a] == mem[a]
    ensures 0x00F0_0000 + 8 * (|toks| + 1) <= a < 0x00F1_0000 && !(0x00F0_0100 <= a <= 0x00F0_0100 + |argv0|)
            && OutsideStrings(toks, |toks|, a)
            ==> FinalMemory(mem, argv0, toks)[a] == 0
  {
    hide Pos, BeBytes;
    ZeroBytes(8);
    if !(BASE <= a < BASE + BLOCK) {
      forall i: nat | i < |toks| ensures a < BASE + Pos(toks, i) || BASE + Pos(toks, i) + |toks[i]| < a {
        TokenFits(toks, i);
      }
    }
    if OutsideStrings(toks, |toks|, a) && !(BASE <= a < BASE + 8 * (|toks| + 1)) {
      TokenedElsewhere(Started(mem, argv0), toks, |toks|, a);
    }
  }

  lemma {:induction false} ZeroBytes(n: nat)
    ensures forall k :: 0 <= k < n ==> BeBytes(0, n)[k] == 0
  {
    if n > 0 {
      ZeroBytes(n - 1);
    }
  }

  /** The limit on argv[0] is exact: only below 128 characters does it survive every argument
      string, since the first token is always written 0x80 past it. */
  lemma Argv0IntactIffShort(mem: seq<byte>, argv0: Text)
    requires |mem| == GUEST && BASE + 0x100 + |argv0| < GUEST
    ensures (forall extra: Text :: Roomy(Used(extra)) && Str(FinalMemory(mem, argv0, Used(extra)), BASE + 0x100, argv0))
            <==> |argv0| < 128
  {
    if |argv0| < 128 {
      forall extra: Text
        ensures Roomy(Used(extra)) && Str(FinalMemory(mem, argv0, Used(extra)), BASE + 0x100, argv0)
      {
        UsedIsRoomy(extra);
        BlockIsComplete(mem, argv0, Used(extra));
      }
    } else {
      var extra := LongArgv0Damaged(mem, argv0);
    }
  }

  lemma LongArgv0Damaged(mem: seq<byte>, argv0: Text) returns (extra: Text)
    requires |mem| == GUEST && BASE + 0x100 + |argv0| < GUEST && |argv0| >= 128
    ensures Roomy(Used(extra)) && !Str(FinalMemory(mem, argv0, Used(extra)), BASE + 0x100, argv0)
  {
    hide Started;
    var old128 := (argv0 + [0])[128];
    var x: byte := if old128 == 0x41 then 0x42 else 0x41;
    extra := [x];
    OneToken(x);
    UsedIsRoomy(extra);
    var toks := [[x]];
    var final := FinalMemory(mem, argv0, toks);
    assert Tokened(Started(mem, argv0), toks, 1)[BASE + 0x180] == x;
    assert final[BASE + 0x180] == x;
    if Str(final, BASE + 0x100, argv0) {
      var s := argv0 + [0];
      SliceAt(final, BASE + 0x100, s, 128);
      assert false;
    }
  }

  lemma OneToken(x: byte)
    requires x != 0 && !IsDelim(x)
    ensures Used([x]) == [[x]]
  {
    var s: Text := [x];
    assert s[1..] == [];
    assert RunLength(s) == 1 && s[..1] == [x];
    assert Tokens([]) == [];
  }

  // ---- The guest's in-place compaction --------------------------------------------

  /** The low word of slot i. */
  function LowWord(mem: seq<byte>, i: nat): seq<byte>
    requires BASE + 8 * i + 8 <= |mem|
  {
    mem[BASE + 8 * i + 4..BASE + 8 * i + 8]
  }

  /** mem is `was` with the first n slots compacted. */
  predicate Compacted(mem: seq<byte>, was: seq<byte>, n: nat)
    requires |was| == GUEST && n <= 30
  {
    && |mem| == GUEST
    && (forall i: nat :: i < n ==> SliceIs(mem, BASE + 4 * i, LowWord(was, i)))
    && (forall a: nat :: a < GUEST && !(BASE <= a < BASE + 4 * n) ==> mem[a] == was[a])
  }

  lemma CompactOne(mem: seq<byte>, was: seq<byte>, n: nat)
    requires |was| == GUEST && n < 30 && Compacted(mem, was, n)
    ensures LowWord(mem, n) == LowWord(was, n)
    ensures Compacted(Splice(mem, BASE + 4 * n, LowWord(mem, n)), was, n + 1)
  {
    hide SliceIs;
    assert LowWord(mem, n) == LowWord(was, n);
    SliceWritten(mem, BASE + 4 * n, LowWord(mem, n));
    forall i: nat | i < n
      ensures SliceIs(Splice(mem, BASE + 4 * n, LowWord(mem, n)), BASE + 4 * i, LowWord(was, i))
    {
      SliceKept(mem, BASE + 4 * n, LowWord(mem, n), BASE + 4 * i, LowWord(was, i));
    }
  }

  /** The start-up loop: the low word of each 64-bit pointer, read at stride 8, is stored at
      stride 4 over the same array, never over a slot still to be read. */
  method Compact(vm: array<byte>, argc: nat)
    requires vm.Length == GUEST && 1 <= argc <= 30
    modifies vm
    ensures Compacted(vm[..], old(vm[..]), argc)
  {
    hide Compacted;
    ghost var was := vm[..];
    NothingCompacted(was);
    var i := 0;
    while i < argc
      invariant i <= argc && Compacted(vm[..], was, i)
    {
      CompactOne(vm[..], was, i);
      WriteAt(vm, BASE + 4 * i, vm[BASE + 8 * i + 4..BASE + 8 * i + 8]);
      i := i + 1;
    }
  }

  lemma NothingCompacted(was: seq<byte>)
    requires |was| == GUEST
    ensures Compacted(was, was, 0)
  {
  }

  /** The address of argument i. */
  function ArgAddr(toks: seq<Text>, i: nat): u32
    requires i <= |toks| && Roomy(toks)
  {
    if i == 0 then BASE + 0x100
    else
      TokenFits(toks, i - 1);
      BASE + Pos(toks, i - 1)
  }

  /** Set-up and compaction together give the guest its argv: entry i of the 32-bit array is
      the address of argument i's text. */
  lemma GuestSeesArguments(mem: seq<byte>, compacted: seq<byte>, argv0: Text, toks: seq<Text>, i: nat)
    requires |mem| == GUEST && BlockIs(mem, argv0, toks) && Roomy(toks)
    requires Compacted(compacted, mem, |toks| + 1) && i <= |toks|
    ensures U32At(compacted, BASE + 4 * i) == ArgAddr(toks, i)
    ensures Str(compacted, ArgAddr(toks, i), if i == 0 then argv0 else toks[i - 1])
  {
    hide BeBytes, Pos;
    var v, text := ArgAddr(toks, i), if i == 0 then argv0 else toks[i - 1];
    if i > 0 {
      assert Slot(mem, i - 1 + 1, BASE + Pos(toks, i - 1)) && Str(mem, BASE + Pos(toks, i - 1), toks[i - 1]);
    }
    assert Slot(mem, i, v) && Str(mem, v, text);
    LowHalf(mem, BASE + 8 * i, v);
    assert SliceIs(compacted, BASE + 4 * i, LowWord(mem, i));
    U32AtBytes(compacted, BASE + 4 * i, v);
    var s := text + [0];
    assert compacted[v..v + |s|] == mem[v..v + |s|];
  }

  /** What a slot's two halves hold. */
  lemma SlotHalves(mem: seq<byte>, i: nat, v: u32)
    requires |mem| == GUEST && i < 32 && Slot(mem, i, v)
    ensures U32At(mem, BASE + 8 * i) == 0 && U32At(mem, BASE + 8 * i + 4) == v
  {
    hide BeBytes, U32At;
    HighHalf(mem, BASE + 8 * i, v);
    U32AtBytes(mem, BASE + 8 * i, 0);
    LowHalf(mem, BASE + 8 * i, v);
    U32AtBytes(mem, BASE + 8 * i + 4, v);
  }

  /** The word after the compacted array is half of a slot the loop did not reach: the high half
      when argc is even, which is zero, and the low half of an argument's pointer otherwise. */
  lemma WordAfterArguments(mem: seq<byte>, compacted: seq<byte>, argv0: Text, toks: seq<Text>)
    requires |mem| == GUEST && BlockIs(mem, argv0, toks) && Roomy(toks)
    requires Compacted(compacted, mem, |toks| + 1)
    ensures var argc, word := |toks| + 1, U32At(compacted, BASE + 4 * (|toks| + 1));
            && (argc % 2 == 1 ==> word == ArgAddr(toks, |toks| / 2))
            && (word == 0 <==> argc % 2 == 0)
  {
    hide BeBytes, Pos, U32At, SliceIs;
    var argc := |toks| + 1;
    var i := argc / 2;
    if i > 0 {
      assert Slot(mem, i - 1 + 1, BASE + Pos(toks, i - 1));
    }
    SlotHalves(mem, i, ArgAddr(toks, i));
    var o := BASE + 4 * argc;
    assert compacted[o..o + 4] == mem[o..o + 4];
    WordOfBytes(compacted, mem, o);
  }

  lemma WordOfBytes(d: seq<byte>, d': seq<byte>, o: nat)
    requires o + 4 <= |d| && o + 4 <= |d'| && d[o..o + 4] == d'[o..o + 4]
    ensures U32At(d, o) == U32At(d', o)
  {
  }

  /** The first four bytes of a 64-bit word holding a 32-bit value are zero. */
  lemma HighHalf(mem: seq<byte>, o: nat, v: u32)
    requires SliceIs(mem, o, BeBytes(v, 8))
    ensures mem[o..o + 4] == BeBytes(0, 4)
  {
    BeHead(v, 4);
    SubSlice(mem, o, BeBytes(v, 8), 0, 4);
  }

  lemma BeHead(v: u32, n: nat)
    requires n == 4
    ensures BeBytes(v, 8)[..4] == BeBytes(0, 4)
  {
    var v1, v2 := v / 256, v / 256 / 256;
    var v3, v4 := v2 / 256, v2 / 256 / 256;
    assert v4 == 0;
    assert BeBytes(v, 8)[..4] == BeBytes(v1, 7)[..4];
    assert BeBytes(v1, 7)[..4] == BeBytes(v2, 6)[..4];
    assert BeBytes(v2, 6)[..4] == BeBytes(v3, 5)[..4];
    assert BeBytes(v3, 5)[..4] == BeBytes(v4, 4)[..4];
  }

  /** The last four bytes of a 64-bit word holding a 32-bit value are the value. */
  lemma LowHalf(mem: seq<byte>, o: nat, v: u32)
    requires SliceIs(mem, o, BeBytes(v, 8))
    ensures mem[o + 4..o + 8] == BeBytes(v, 4)
  {
    var s := BeBytes(v, 8);
    BeTail(v, 4, 4);
    SubSlice(mem, o, s, 4, 8);
  }

  /** The n low bytes are the end of the m + n low bytes. */
  lemma {:induction false} BeTail(v: nat, m: nat, n: nat)
    ensures BeBytes(v, m + n)[m..] == BeBytes(v, n)
    decreases n
  {
    if n > 0 {
      BeTail(v / 256, m, n - 1);
      assert BeBytes(v, m + n) == BeBytes(v / 256, m + n - 1) + [v % 256];
      assert BeBytes(v, m + n)[m..] == BeBytes(v / 256, m + n - 1)[m..] + [v % 256];
    }
  }
}
