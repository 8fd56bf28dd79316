/** The RTTI demangler of scripts/rtti.py, and the printer it inverts: the nested-name
    subset of section 5.1 of the Itanium C++ ABI, with template arguments that are nested
    names, plain source names or one-letter builtins. */
module Demangle {
  import opened Bytes

  // ---- Strings, numbers and Python's slices --------------------------------------

  predicate IsDigit(c: char) {
    '0' <= c <= '9'
  }

  /** The first index from i on that does not hold a digit. */
  function DigitsEnd(s: string, i: nat): (j: nat)
    requires i <= |s|
    ensures i <= j <= |s|
    decreases |s| - i
  {
    if i < |s| && IsDigit(s[i]) then DigitsEnd(s, i + 1) else i
  }

  function DigitValue(c: char): nat
    requires IsDigit(c)
  {
    c as int - '0' as int
  }

  /** int() of a run of digits. */
  function Value(ds: string): nat
    requires forall c :: c in ds ==> IsDigit(c)
  {
    if ds == "" then 0 else 10 * Value(ds[..|ds| - 1]) + DigitValue(ds[|ds| - 1])
  }

  lemma {:induction false} DigitsAreDigits(s: string, i: nat)
    requires i <= |s|
    ensures forall c :: c in s[i..DigitsEnd(s, i)] ==> IsDigit(c)
    decreases |s| - i
  {
    if i < |s| && IsDigit(s[i]) {
      DigitsAreDigits(s, i + 1);
      assert s[i..DigitsEnd(s, i)] == [s[i]] + s[i + 1..DigitsEnd(s, i)];
    }
  }

  /** The length a component states at i. */
  function Length(s: string, i: nat): nat
    requires i <= |s|
  {
    DigitsAreDigits(s, i);
    Value(s[i..DigitsEnd(s, i)])
  }

  /** s[i:i+n] with both ends clipped to the string. */
  function Slice(s: string, i: nat, n: nat): string {
    s[Min(i, |s|)..Min(i + n, |s|)]
  }

  function Join(parts: seq<string>, sep: string): string {
    if parts == [] then ""
    else if |parts| == 1 then parts[0]
    else parts[0] + sep + Join(parts[1..], sep)
  }

  function Bracketed(args: seq<string>): string {
    "<" + Join(args, ", ") + ">"
  }

  // ---- The parsers ----------------------------------------------------------

  /** Components read from index i on, after the ones already in `out`, and the index
      reached: one past the closing E, or where reading stopped. */
  function Parts(s: string, i: nat, out: seq<string>): (r: (seq<string>, nat))
    ensures r.1 >= i
    decreases |s| - i
  {
    if i >= |s| then (out, i)
    else if s[i] == 'E' then (out, i + 1)
    else if s[i] == 'I' then
      var (args, j) := ReadArgs(s, i + 1, []);
      Parts(s, j, if out == [] then out else out[|out| - 1 := out[|out| - 1] + Bracketed(args)])
    else
      var j := DigitsEnd(s, i);
      if j == i then (out, i)
      else
        var n := Length(s, i);
        Parts(s, j + n, out + [Slice(s, j, n)])
  }

  function ReadArgs(s: string, i: nat, args: seq<string>): (r: (seq<string>, nat))
    ensures r.1 >= i
    decreases |s| - i
  {
    if i >= |s| then (args, i)
    else if s[i] == 'E' then (args, i + 1)
    else if s[i] == 'N' then
      var (p, j) := Parts(s, i + 1, []);
      ReadArgs(s, j, args + [Join(p, "::")])
    else
      var j := DigitsEnd(s, i);
      if j > i then
        var n := Length(s, i);
        ReadArgs(s, j + n, args + [Slice(s, j, n)])
      else ReadArgs(s, i + 1, args)
  }

  /** What `^(\d+)(.*)$` captures after the digits, and whether it matches: `.` stops at a
      newline, and `$` accepts the end or a final newline. */
  function PlainTail(tail: string): (r: (bool, string))
  {
    if '\n' !in tail then (true, tail)
    else if tail[|tail| - 1] == '\n' && '\n' !in tail[..|tail| - 1] then (true, tail[..|tail| - 1])
    else (false, "")
  }

  function Name(sym: string): string {
    if sym == "" then sym
    else if sym[0] == 'N' then
      var p := Parts(sym, 1, []).0;
      if p != [] then Join(p, "::") else sym
    else
      var j := DigitsEnd(sym, 0);
      var (matched, tail) := PlainTail(sym[j..]);
      if j > 0 && matched then Slice(tail, 0, Length(sym, 0)) else sym
  }

  // ---- The loops ------------------------------------------------------------

  lemma ValueStep(s: string, i: nat, j: nat)
    requires i <= j < |s| && IsDigit(s[j]) && forall c :: c in s[i..j] ==> IsDigit(c)
    ensures forall c :: c in s[i..j + 1] ==> IsDigit(c)
    ensures Value(s[i..j + 1]) == 10 * Value(s[i..j]) + DigitValue(s[j])
  {
    assert s[i..j + 1] == s[i..j] + [s[j]];
    assert s[i..j + 1][..j - i] == s[i..j];
  }

  lemma NoDigitsRead(s: string, i: nat)
    requires i <= |s|
    ensures Value(s[i..i]) == 0
  {
  }

  method ReadInt(s: string, i: nat) returns (n: nat, j: nat)
    requires i <= |s|
    ensures j == DigitsEnd(s, i) && n == Length(s, i)
  {
    hide Value, DigitValue;
    n, j := 0, i;
    NoDigitsRead(s, i);
    while j < |s| && IsDigit(s[j])
      invariant i <= j <= |s|
      invariant DigitsEnd(s, i) == DigitsEnd(s, j)
      invariant forall c :: c in s[i..j] ==> IsDigit(c)
      invariant n == Value(s[i..j])
    {
      ValueStep(s, i, j);
      n := 10 * n + DigitValue(s[j]);
      j := j + 1;
    }
  }

  method PartsLoop(s: string, start: nat) returns (out: seq<string>, i: nat)
    ensures (out, i) == Parts(s, start, [])
    decreases |s| - start
  {
    hide Join, Length, DigitsEnd, Slice;
    out, i := [], start;
    while i < |s|
      invariant i >= start
      invariant Parts(s, start, []) == Parts(s, i, out)
      decreases |s| - i
    {
      if s[i] == 'E' {
        return out, i + 1;
      }
      if s[i] == 'I' {
        var args;
        args, i := ReadArgsLoop(s, i + 1);
        if out != [] {
          out := out[|out| - 1 := out[|out| - 1] + Bracketed(args)];
        }
        continue;
      }
      var n, j := ReadInt(s, i);
      if j == i {
        return out, i;
      }
      out := out + [Slice(s, j, n)];
      i := j + n;
    }
  }

  method ReadArgsLoop(s: string, start: nat) returns (args: seq<string>, i: nat)
    ensures (args, i) == ReadArgs(s, start, [])
    decreases |s| - start
  {
    hide Length, DigitsEnd, Slice, Parts;
    args, i := [], start;
    while i < |s|
      invariant i >= start
      invariant ReadArgs(s, start, []) == ReadArgs(s, i, args)
      decreases |s| - i
    {
      if s[i] == 'E' {
        return args, i + 1;
      }
      if s[i] == 'N' {
        var p;
        p, i := PartsLoop(s, i + 1);
        args := args + [Join(p, "::")];
        continue;
      }
      var n, j := ReadInt(s, i);
      if j > i {
        args := args + [Slice(s, j, n)];
        i := j + n;
        continue;
      }
      i := i + 1;
    }
  }

  method DemangleName(sym: string) returns (name: string)
    ensures name == Name(sym)
  {
    if sym == "" {
      return sym;
    }
    if sym[0] == 'N' {
      var p, _ := PartsLoop(sym, 1);
      return if p != [] then Join(p, "::") else sym;
    }
    var n, j := ReadInt(sym, 0);
    var (matched, tail) := PlainTail(sym[j..]);
    if j > 0 && matched {
      return Slice(tail, 0, n);
    }
    return sym;
  }

  // ---- The grammar, its mangling and its pretty form -------------------------------

  datatype Comp = Comp(id: string, args: TArgs)

  datatype TArgs = NoArgs | Args(list: seq<Arg>)

  datatype Arg = Nested(comps: seq<Comp>) | Source(id: string) | Builtin(letter: char)

  datatype TypeName = NestedName(comps: seq<Comp>) | PlainName(id: string)

  predicate ValidId(id: string) {
    id != "" && !IsDigit(id[0])
  }

  predicate ValidComps(cs: seq<Comp>)
    decreases cs
  {
    cs != [] ==>
      && ValidId(cs[0].id)
      && (cs[0].args.Args? ==> ValidArgs(cs[0].args.list))
      && ValidComps(cs[1..])
  }

  predicate ValidArg(arg: Arg)
    decreases arg
  {
    match arg
    case Nested(cs) => cs != [] && ValidComps(cs)
    case Source(id) => ValidId(id)
    case Builtin(c) => c != 'E' && c != 'N' && !IsDigit(c)
  }

  predicate ValidArgs(args: seq<Arg>)
    decreases args
  {
    args != [] ==> ValidArg(args[0]) && ValidArgs(args[1..])
  }

  /** A plain name is one source line of text; a nested name has at least one component. */
  predicate ValidName(t: TypeName) {
    match t
    case NestedName(cs) => cs != [] && ValidComps(cs)
    case PlainName(id) => ValidId(id) && '\n' !in id
  }

  function Decimal(n: nat): (ds: string)
    ensures ds != "" && forall c :: c in ds ==> IsDigit(c)
  {
    var last := ['0' + (n % 10) as char];
    if n < 10 then last else Decimal(n / 10) + last
  }

  function MangleId(id: string): string {
    Decimal(|id|) + id
  }

  function MangleComps(cs: seq<Comp>): string
    decreases cs
  {
    if cs == [] then ""
    else MangleId(cs[0].id) + MangleTArgs(cs[0].args) + MangleComps(cs[1..])
  }

  function MangleTArgs(args: TArgs): string
    decreases args
  {
    match args
    case NoArgs => ""
    case Args(list) => "I" + MangleArgs(list) + "E"
  }

  function MangleArgs(args: seq<Arg>): string
    decreases args
  {
    if args == [] then "" else MangleArg(args[0]) + MangleArgs(args[1..])
  }

  function MangleArg(arg: Arg): string
    decreases arg
  {
    match arg
    case Nested(cs) => "N" + MangleComps(cs) + "E"
    case Source(id) => MangleId(id)
    case Builtin(c) => [c]
  }

  function Mangle(t: TypeName): string {
    match t
    case NestedName(cs) => "N" + MangleComps(cs) + "E"
    case PlainName(id) => MangleId(id)
  }

  /** Each component with its template arguments in angle brackets. */
  function PrettyComps(cs: seq<Comp>): seq<string>
    decreases cs
  {
    if cs == [] then [] else [cs[0].id + PrettyTArgs(cs[0].args)] + PrettyComps(cs[1..])
  }

  function PrettyTArgs(args: TArgs): string
    decreases args
  {
    match args
    case NoArgs => ""
    case Args(list) => Bracketed(PrettyArgs(list))
  }

  function PrettyArgs(args: seq<Arg>): seq<string>
    decreases args
  {
    if args == [] then [] else PrettyArg(args[0]) + PrettyArgs(args[1..])
  }

  /** Builtin arguments are not shown. */
  function PrettyArg(arg: Arg): seq<string>
    decreases arg
  {
    match arg
    case Nested(cs) => [Join(PrettyComps(cs), "::")]
    case Source(id) => [id]
    case Builtin(_) => []
  }

  // ---- The name as it is written -----------------------------------------------------

  /** A qualified name, outermost component first. */
  function Written(cs: seq<Comp>): string
    decreases cs
  {
    if cs == [] then ""
    else cs[0].id + WrittenTArgs(cs[0].args) + (if cs[1..] == [] then "" else "::" + Written(cs[1..]))
  }

  function WrittenTArgs(args: TArgs): string
    decreases args
  {
    match args
    case NoArgs => ""
    case Args(list) => "<" + WrittenList(list, false) + ">"
  }

  /** The shown arguments of a list, in order; `more` when one was written before them. */
  function WrittenList(args: seq<Arg>, more: bool): string
    decreases args
  {
    if args == [] then ""
    else if args[0].Builtin? then WrittenList(args[1..], more)
    else (if more then ", " else "") + WrittenArg(args[0]) + WrittenList(args[1..], true)
  }

  function WrittenArg(arg: Arg): string
    decreases arg
  {
    match arg
    case Nested(cs) => Written(cs)
    case Source(id) => id
    case Builtin(_) => ""
  }

  function Pretty(t: TypeName): string {
    match t
    case NestedName(cs) => Written(cs)
    case PlainName(id) => id
  }

  lemma JoinCons(first: string, rest: seq<string>, sep: string)
    ensures Join([first] + rest, sep) == if rest == [] then first else first + sep + Join(rest, sep)
  {
    var all := [first] + rest;
    assert all[1..] == rest && all[0] == first;
  }

  lemma NothingJoined(sep: string)
    ensures Join([], sep) == ""
  {
  }

  lemma {:induction false} CompsWritten(cs: seq<Comp>)
    ensures Join(PrettyComps(cs), "::") == Written(cs)
    ensures PrettyComps(cs) == [] <==> cs == []
    decreases cs
  {
    if cs != [] {
      TArgsWritten(cs[0]);
      CompsWritten(cs[1..]);
      JoinCons(cs[0].id + PrettyTArgs(cs[0].args), PrettyComps(cs[1..]), "::");
    }
  }

  lemma {:induction false} TArgsWritten(c: Comp)
    ensures PrettyTArgs(c.args) == WrittenTArgs(c.args)
    decreases c
  {
    if c.args.Args? {
      ListWritten(c.args.list);
    }
  }

  lemma {:induction false} ListWritten(args: seq<Arg>)
    ensures WrittenList(args, false) == Join(PrettyArgs(args), ", ")
    ensures WrittenList(args, true) == if PrettyArgs(args) == [] then "" else ", " + Join(PrettyArgs(args), ", ")
    decreases args
  {
    hide Join, PrettyArg, WrittenArg;
    if args == [] {
      NothingJoined(", ");
    } else {
      var rest := PrettyArgs(args[1..]);
      ListWritten(args[1..]);
      ArgWritten(args[0]);
      if args[0].Builtin? {
        assert [] + rest == rest;
      } else {
        JoinCons(WrittenArg(args[0]), rest, ", ");
      }
    }
  }

  lemma {:induction false} ArgWritten(arg: Arg)
    ensures PrettyArg(arg) == if arg.Builtin? then [] else [WrittenArg(arg)]
    decreases arg
  {
    if arg.Nested? {
      CompsWritten(arg.comps);
    }
  }

  // ---- The demangler inverts the printer -----------------------------------------

  lemma {:induction false} ValueOfDecimal(n: nat)
    ensures Value(Decimal(n)) == n
  {
    var ds := Decimal(n);
    var c := '0' + (n % 10) as char;
    assert DigitValue(c) == n % 10;
    if n < 10 {
      assert ds == [c] && ds[..0] == "";
    } else {
      ValueOfDecimal(n / 10);
      assert ds[..|ds| - 1] == Decimal(n / 10);
    }
  }

  lemma {:induction false} DigitsEndAfter(s: string, i: nat, j: nat)
    requires i <= j <= |s|
    requires forall k :: i <= k < j ==> IsDigit(s[k])
    requires j == |s| || !IsDigit(s[j])
    ensures DigitsEnd(s, i) == j
    decreases j - i
  {
    if i < j {
      DigitsEndAfter(s, i + 1, j);
    }
  }

  /** Reading a mangled identifier yields the identifier and ends right after it. */
  lemma ReadsId(s: string, i: nat, id: string, rest: string)
    requires i <= |s| && s[i..] == MangleId(id) + rest && ValidId(id)
    ensures var j := DigitsEnd(s, i);
            && j > i && Length(s, i) == |id| && Slice(s, j, |id|) == id
            && j + |id| == i + |MangleId(id)| && s[j + |id|..] == rest
    ensures IsDigit(s[i])
  {
    var ds := Decimal(|id|);
    var j := i + |ds|;
    assert MangleId(id) + rest == ds + (id + rest);
    SplitAt(s, i, ds, id + rest);
    SplitAt(s, j, id, rest);
    assert forall k :: i <= k < j ==> s[k] == s[i..j][k - i];
    assert s[j] == s[j..j + |id|][0];
    DigitsEndAfter(s, i, j);
    ValueOfDecimal(|id|);
  }

  lemma SplitAt(s: string, i: nat, a: string, b: string)
    requires i <= |s| && s[i..] == a + b
    ensures i + |a| <= |s| && s[i..i + |a|] == a && s[i + |a|..] == b
  {
    assert s[i..i + |a|] == s[i..][..|a|];
    assert s[i + |a|..] == s[i..][|a|..];
  }

  lemma Suffix(s: string, i: nat, a: string, b: string)
    requires i <= |s| && s[i..] == a + b
    ensures i + |a| <= |s| && s[i + |a|..] == b
    ensures a != "" ==> i < |s| && s[i] == a[0]
  {
    assert s[i..][|a|..] == b;
    assert s[i + |a|..] == s[i..][|a|..];
  }

  lemma PartsReadsId(s: string, i: nat, id: string, rest: string, out: seq<string>, r: (seq<string>, nat))
    requires i <= |s| && s[i..] == MangleId(id) + rest && ValidId(id)
    requires r == Parts(s, i, out)
    ensures var j := i + |MangleId(id)|;
            j <= |s| && s[j..] == rest && r == Parts(s, j, out + [id])
  {
    ReadsId(s, i, id, rest);
    Suffix(s, i, MangleId(id), rest);
  }

  /** A template argument list is attached to the component before it. */
  lemma PartsReadsArgs(s: string, i: nat, before: seq<string>, id: string, args: seq<string>, j: nat)
    requires i < |s| && s[i] == 'I' && ReadArgs(s, i + 1, []) == (args, j)
    ensures Parts(s, i, before + [id]) == Parts(s, j, before + [id + Bracketed(args)])
  {
    var out := before + [id];
    assert out[|out| - 1 := id + Bracketed(args)] == before + [id + Bracketed(args)];
  }

  lemma ArgsStop(s: string, i: nat, tail: string, out: seq<string>)
    requires i <= |s| && s[i..] == tail && (tail != "" ==> tail[0] == 'E')
    ensures ReadArgs(s, i, out) == (out, if tail == "" then i else i + 1)
  {
    assert tail != "" ==> s[i] == s[i..][0];
  }

  /** Text no component can start with; the component parser stops here. */
  predicate Stops(tail: string) {
    tail != "" ==> tail[0] != 'I' && !IsDigit(tail[0])
  }

  lemma PartsStop(s: string, i: nat, tail: string, out: seq<string>)
    requires i <= |s| && s[i..] == tail && Stops(tail)
    ensures Parts(s, i, out) == (out, if tail != "" && tail[0] == 'E' then i + 1 else i)
  {
    assert tail != "" ==> s[i] == s[i..][0];
  }

  /** Reading goes on after the components with what they are shown as. */
  lemma {:induction false} PartsPassesComps(s: string, i: nat, cs: seq<Comp>, after: string, out: seq<string>,
                                            r: (seq<string>, nat))
    requires i <= |s| && s[i..] == MangleComps(cs) + after && ValidComps(cs)
    requires r == Parts(s, i, out)
    ensures var k := i + |MangleComps(cs)|;
            k <= |s| && s[k..] == after && r == Parts(s, k, out + PrettyComps(cs))
    decreases cs, 0
  {
    hide Parts, ReadArgs, MangleId, MangleTArgs, PrettyTArgs, ValidArgs;
    if cs == [] {
      assert MangleComps(cs) + after == after;
      assert out + PrettyComps(cs) == out;
    } else {
      var c := cs[0];
      var id, args, others := MangleId(c.id), MangleTArgs(c.args), MangleComps(cs[1..]);
      Regroup(id, args, others, after);
      PartsReadsId(s, i, c.id, args + (others + after), out, r);
      TArgsAreRead(s, i + |id|, c, others + after, out, r);
      var shown, k := c.id + PrettyTArgs(c.args), i + |id| + |args|;
      PartsPassesComps(s, k, cs[1..], after, out + [shown], r);
      Regroup(out, [shown], PrettyComps(cs[1..]), []);
    }
  }

  /** The component parser reads exactly the components, and then its own closing E. */
  lemma {:induction false} PartsReadsComps(s: string, i: nat, cs: seq<Comp>, tail: string, out: seq<string>,
                                           r: (seq<string>, nat))
    requires i <= |s| && s[i..] == MangleComps(cs) + tail && ValidComps(cs)
    requires Stops(tail)
    requires r == Parts(s, i, out)
    ensures r.0 == out + PrettyComps(cs)
    ensures r.1 == i + |MangleComps(cs)| + if tail != "" && tail[0] == 'E' then 1 else 0
    decreases cs, 1
  {
    hide Parts, MangleComps, PrettyComps, ValidComps;
    PartsPassesComps(s, i, cs, tail, out, r);
    PartsStop(s, i + |MangleComps(cs)|, tail, out + PrettyComps(cs));
  }

  lemma Regroup<T>(a: seq<T>, b: seq<T>, c: seq<T>, d: seq<T>)
    ensures (a + b + c) + d == a + (b + (c + d))
    ensures d == [] ==> (a + b) + c == a + (b + c)
  {
  }

  lemma {:induction false} TArgsAreRead(s: string, j: nat, c: Comp, after: string, out: seq<string>,
                                        r: (seq<string>, nat))
    requires j <= |s| && s[j..] == MangleTArgs(c.args) + after
    requires c.args.Args? ==> ValidArgs(c.args.list)
    requires r == Parts(s, j, out + [c.id])
    ensures var k := j + |MangleTArgs(c.args)|;
            k <= |s| && s[k..] == after && r == Parts(s, k, out + [c.id + PrettyTArgs(c.args)])
    decreases c
  {
    hide Parts, ReadArgs;
    Suffix(s, j, MangleTArgs(c.args), after);
    match c.args
    case NoArgs =>
      assert c.id + PrettyTArgs(c.args) == c.id;
    case Args(list) =>
      var body := MangleArgs(list);
      Regroup("I", body, "E", after);
      Suffix(s, j, "I", body + ("E" + after));
      ArgsAreRead(s, j + 1, list, "E" + after, [], ReadArgs(s, j + 1, []));
      assert [] + PrettyArgs(list) == PrettyArgs(list);
      PartsReadsArgs(s, j, out, c.id, PrettyArgs(list), j + 1 + |body| + 1);
  }

  /** The argument parser reads exactly the arguments up to its own closing E, or all of them when
      the text ends before it. */
  lemma {:induction false} ArgsAreRead(s: string, i: nat, list: seq<Arg>, tail: string, args: seq<string>,
                                       r: (seq<string>, nat))
    requires i <= |s| && s[i..] == MangleArgs(list) + tail && ValidArgs(list)
    requires tail != "" ==> tail[0] == 'E'
    requires r == ReadArgs(s, i, args)
    ensures r.0 == args + PrettyArgs(list) && r.1 == i + |MangleArgs(list)| + if tail == "" then 0 else 1
    decreases list
  {
    hide Parts, ReadArgs, MangleArg, PrettyArg, ValidArg;
    if list == [] {
      assert MangleArgs(list) + tail == tail;
      ArgsStop(s, i, tail, args);
      assert args + PrettyArgs(list) == args;
    } else {
      var first, others := MangleArg(list[0]), MangleArgs(list[1..]);
      Regroup([], first, others, tail);
      ArgIsRead(s, i, list[0], others + tail, args, r);
      ArgsAreRead(s, i + |first|, list[1..], tail, args + PrettyArg(list[0]), r);
      Regroup(args, PrettyArg(list[0]), PrettyArgs(list[1..]), []);
    }
  }

  lemma {:induction false} ArgIsRead(s: string, i: nat, arg: Arg, after: string, args: seq<string>,
                                     r: (seq<string>, nat))
    requires i <= |s| && s[i..] == MangleArg(arg) + after && ValidArg(arg)
    requires r == ReadArgs(s, i, args)
    ensures var j := i + |MangleArg(arg)|;
            j <= |s| && s[j..] == after && r == ReadArgs(s, j, args + PrettyArg(arg))
    decreases arg
  {
    hide Parts, ReadArgs, PrettyComps, MangleComps, ValidComps, Join;
    Suffix(s, i, MangleArg(arg), after);
    match arg
    case Nested(cs) =>
      var body := MangleComps(cs);
      Regroup("N", body, "E", after);
      Suffix(s, i, "N", body + ("E" + after));
      PartsReadsComps(s, i + 1, cs, "E" + after, [], Parts(s, i + 1, []));
      assert [] + PrettyComps(cs) == PrettyComps(cs);
      ArgsReadsNested(s, i, PrettyComps(cs), i + 1 + |body| + 1, args);
    case Source(id) =>
      ArgsReadsSource(s, i, id, after, args);
    case Builtin(c) =>
      ArgsSkipBuiltin(s, i, c, args);
      assert args + PrettyArg(arg) == args;
  }

  lemma ArgsSkipBuiltin(s: string, i: nat, c: char, args: seq<string>)
    requires i < |s| && s[i] == c && c != 'E' && c != 'N' && !IsDigit(c)
    ensures ReadArgs(s, i, args) == ReadArgs(s, i + 1, args)
  {
  }

  lemma ArgsReadsNested(s: string, i: nat, comps: seq<string>, j: nat, args: seq<string>)
    requires i < |s| && s[i] == 'N' && Parts(s, i + 1, []) == (comps, j)
    ensures ReadArgs(s, i, args) == ReadArgs(s, j, args + [Join(comps, "::")])
  {
  }

  lemma ArgsReadsSource(s: string, i: nat, id: string, rest: string, args: seq<string>)
    requires i <= |s| && s[i..] == MangleId(id) + rest && ValidId(id)
    ensures ReadArgs(s, i, args) == ReadArgs(s, i + |MangleId(id)|, args + [id])
  {
    ReadsId(s, i, id, rest);
  }

  /** Whatever follows the components is dropped, closing E or not; only a name with no
      component at all comes back unchanged. */
  lemma TailIsDropped(cs: seq<Comp>, tail: string)
    requires ValidComps(cs) && Stops(tail)
    ensures var sym := "N" + MangleComps(cs) + tail;
            && Name(sym) == (if cs == [] then sym else Written(cs))
            && (Name(sym) == sym <==> cs == [])
  {
    hide Parts, ReadArgs, Join, MangleComps, ValidComps, Written;
    CompsWritten(cs);
    var s := "N" + MangleComps(cs) + tail;
    assert s[1..] == MangleComps(cs) + tail;
    PartsReadsComps(s, 1, cs, tail, [], Parts(s, 1, []));
    assert [] + PrettyComps(cs) == PrettyComps(cs);
    if cs != [] {
      NestedNameChanges(s);
    }
  }

  lemma {:induction false} PrettyOfLast(cs: seq<Comp>, c: Comp)
    ensures PrettyComps(cs + [c]) == PrettyComps(cs) + [c.id + PrettyTArgs(c.args)]
    decreases |cs|
  {
    if cs == [] {
      assert [] + [c] == [c] && [c][1..] == [];
    } else {
      PrettyOfLast(cs[1..], c);
      assert (cs + [c])[1..] == cs[1..] + [c];
    }
  }

  /** A name cut short inside its last template argument list shows the arguments read so far, as
      if the list had been closed. */
  lemma CutShortInArguments(cs: seq<Comp>, id: string, list: seq<Arg>)
    requires ValidComps(cs) && ValidId(id) && ValidArgs(list)
    ensures Name("N" + (MangleComps(cs) + (MangleId(id) + ("I" + MangleArgs(list)))))
            == Written(cs + [Comp(id, Args(list))])
  {
    hide Parts, ReadArgs, Join, MangleComps, MangleId, MangleArgs, PrettyComps, PrettyArgs;
    hide Written, ValidComps, ValidArgs;
    var body, unclosed := MangleArgs(list), "I" + MangleArgs(list);
    var s := "N" + (MangleComps(cs) + (MangleId(id) + unclosed));
    var r := Parts(s, 1, []);
    assert s[1..] == MangleComps(cs) + (MangleId(id) + unclosed);
    PartsPassesComps(s, 1, cs, MangleId(id) + unclosed, [], r);
    var before, k := PrettyComps(cs), 1 + |MangleComps(cs)|;
    assert [] + before == before;
    PartsReadsId(s, k, id, unclosed, before, r);
    var j := k + |MangleId(id)|;
    Suffix(s, j, "I", body);
    assert body + "" == body;
    ArgsAreRead(s, j + 1, list, "", [], ReadArgs(s, j + 1, []));
    var args := PrettyArgs(list);
    assert [] + args == args;
    PartsReadsArgs(s, j, before, id, args, |s|);
    PartsStop(s, |s|, "", before + [id + Bracketed(args)]);
    var last := Comp(id, Args(list));
    PrettyOfLast(cs, last);
    assert PrettyTArgs(last.args) == Bracketed(args);
    CompsWritten(cs + [last]);
  }

  // ---- When a name comes back unchanged ---------------------------------------------

  /** How many digits a string holds. */
  function Digits(s: string): nat {
    if s == "" then 0 else (if IsDigit(s[0]) then 1 else 0) + Digits(s[1..])
  }

  function DigitsIn(parts: seq<string>): nat {
    if parts == [] then 0 else Digits(parts[0]) + DigitsIn(parts[1..])
  }

  function DigitsFrom(s: string, i: nat): nat {
    Digits(s[Min(i, |s|)..])
  }

  lemma {:induction false} DigitsConcat(a: string, b: string)
    ensures Digits(a + b) == Digits(a) + Digits(b)
  {
    if a == "" {
      assert a + b == b;
    } else {
      DigitsConcat(a[1..], b);
      assert (a + b)[1..] == a[1..] + b;
    }
  }

  lemma {:induction false} DigitsInConcat(a: seq<string>, b: seq<string>)
    ensures DigitsIn(a + b) == DigitsIn(a) + DigitsIn(b)
  {
    if a == [] {
      assert a + b == b;
    } else {
      DigitsInConcat(a[1..], b);
      assert (a + b)[1..] == a[1..] + b;
    }
  }

  lemma DigitsInOne(t: string)
    ensures DigitsIn([t]) == Digits(t)
  {
    assert [t][1..] == [];
  }

  lemma {:induction false} JoinDigits(parts: seq<string>, sep: string)
    requires Digits(sep) == 0
    ensures Digits(Join(parts, sep)) == DigitsIn(parts)
  {
    if |parts| == 1 {
      DigitsInOne(parts[0]);
      assert parts == [parts[0]];
    } else if |parts| > 1 {
      JoinDigits(parts[1..], sep);
      DigitsConcat(parts[0] + sep, Join(parts[1..], sep));
      DigitsConcat(parts[0], sep);
    }
  }

  lemma BracketedDigits(args: seq<string>)
    ensures Digits(Bracketed(args)) == DigitsIn(args)
  {
    var sep := ", ";
    assert sep[1..] == " " && " "[1..] == "";
    assert Digits(sep) == 0;
    JoinDigits(args, sep);
    DigitsConcat("<" + Join(args, sep), ">");
    DigitsConcat("<", Join(args, sep));
    assert "<"[1..] == "" && ">"[1..] == "";
  }

  lemma ColonsHaveNoDigits()
    ensures Digits("::") == 0
  {
    assert "::"[1..] == ":" && ":"[1..] == "";
  }

  /** The digits of a slice are those it takes from the rest of the string. */
  lemma SliceDigits(s: string, i: nat, n: nat)
    ensures Digits(Slice(s, i, n)) + DigitsFrom(s, i + n) == DigitsFrom(s, i)
  {
    DigitsConcat(Slice(s, i, n), s[Min(i + n, |s|)..]);
    assert s[Min(i, |s|)..] == Slice(s, i, n) + s[Min(i + n, |s|)..];
  }

  lemma SkipDigits(s: string, i: nat)
    requires i < |s|
    ensures DigitsFrom(s, i) == DigitsFrom(s, i + 1) + if IsDigit(s[i]) then 1 else 0
  {
    assert s[i..][1..] == s[i + 1..];
  }

  /** A length costs the digits it is written with. */
  lemma {:induction false} LengthCostsDigits(s: string, i: nat)
    requires i <= |s|
    ensures DigitsFrom(s, DigitsEnd(s, i)) == DigitsFrom(s, i) - (DigitsEnd(s, i) - i)
    decreases |s| - i
  {
    if i < |s| && IsDigit(s[i]) {
      SkipDigits(s, i);
      LengthCostsDigits(s, i + 1);
    }
  }

  /** One identifier, read with its length, leaves fewer digits than it found. */
  lemma IdSpendsDigits(s: string, i: nat, out: seq<string>)
    requires i < |s| && DigitsEnd(s, i) > i
    ensures var j, n := DigitsEnd(s, i), Length(s, i);
            DigitsIn(out + [Slice(s, j, n)]) + DigitsFrom(s, j + n) < DigitsIn(out) + DigitsFrom(s, i)
  {
    hide Length, DigitsEnd, Slice, Digits, DigitsIn;
    var j, n := DigitsEnd(s, i), Length(s, i);
    LengthCostsDigits(s, i);
    SliceDigits(s, j, n);
    DigitsInConcat(out, [Slice(s, j, n)]);
    DigitsInOne(Slice(s, j, n));
  }

  /** Attaching arguments to the last component adds their digits. */
  lemma AttachDigits(out: seq<string>, args: seq<string>)
    requires out != []
    ensures DigitsIn(out[|out| - 1 := out[|out| - 1] + Bracketed(args)]) == DigitsIn(out) + DigitsIn(args)
  {
    hide Bracketed, Digits, DigitsIn;
    var last := |out| - 1;
    var shown := out[last] + Bracketed(args);
    assert out[last := shown] == out[..last] + [shown] && out == out[..last] + [out[last]];
    DigitsInConcat(out[..last], [shown]);
    DigitsInConcat(out[..last], [out[last]]);
    DigitsInOne(shown);
    DigitsInOne(out[last]);
    DigitsConcat(out[last], Bracketed(args));
    BracketedDigits(args);
  }

  /** What the component parser returns has no more digits than the text it consumed, and
      fewer once it has read a component: the length's own digits are gone. */
  lemma {:induction false} PartsSpendDigits(s: string, i: nat, out: seq<string>, r: (seq<string>, nat))
    requires r == Parts(s, i, out)
    ensures |r.0| >= |out|
    ensures DigitsIn(r.0) + DigitsFrom(s, r.1) <= DigitsIn(out) + DigitsFrom(s, i)
    ensures |r.0| > |out| ==> DigitsIn(r.0) + DigitsFrom(s, r.1) < DigitsIn(out) + DigitsFrom(s, i)
    decreases |s| - i
  {
    hide Length, DigitsEnd, Slice, Digits, DigitsIn, DigitsFrom, ReadArgs, Bracketed;
    if i < |s| {
      SkipDigits(s, i);
      if s[i] == 'I' {
        var (args, j) := ReadArgs(s, i + 1, []);
        ArgsSpendDigits(s, i + 1, [], (args, j));
        NoDigits();
        if out == [] {
          PartsSpendDigits(s, j, out, r);
        } else {
          AttachDigits(out, args);
          PartsSpendDigits(s, j, out[|out| - 1 := out[|out| - 1] + Bracketed(args)], r);
        }
      } else if s[i] != 'E' && DigitsEnd(s, i) > i {
        var j, n := DigitsEnd(s, i), Length(s, i);
        IdSpendsDigits(s, i, out);
        PartsSpendDigits(s, j + n, out + [Slice(s, j, n)], r);
      }
    }
  }

  lemma NoDigits()
    ensures DigitsIn([]) == 0
  {
  }

  lemma {:induction false} ArgsSpendDigits(s: string, i: nat, args: seq<string>, r: (seq<string>, nat))
    requires r == ReadArgs(s, i, args)
    ensures DigitsIn(r.0) + DigitsFrom(s, r.1) <= DigitsIn(args) + DigitsFrom(s, i)
    decreases |s| - i
  {
    hide Length, DigitsEnd, Slice, Digits, DigitsIn, DigitsFrom, Parts, Join;
    if i < |s| {
      SkipDigits(s, i);
      if s[i] == 'N' {
        var (p, j) := Parts(s, i + 1, []);
        PartsSpendDigits(s, i + 1, [], (p, j));
        NoDigits();
        ColonsHaveNoDigits();
        JoinDigits(p, "::");
        DigitsInConcat(args, [Join(p, "::")]);
        DigitsInOne(Join(p, "::"));
        ArgsSpendDigits(s, j, args + [Join(p, "::")], r);
      } else if s[i] != 'E' {
        var j := DigitsEnd(s, i);
        if j > i {
          var n := Length(s, i);
          IdSpendsDigits(s, i, args);
          ArgsSpendDigits(s, j + n, args + [Slice(s, j, n)], r);
        } else {
          ArgsSpendDigits(s, i + 1, args, r);
        }
      }
    }
  }

  /** Where the first component would start: past any template argument lists before it. */
  function FirstComponent(s: string, i: nat): (k: nat)
    ensures k >= i
    decreases |s| - i
  {
    if i < |s| && s[i] == 'I' then FirstComponent(s, ReadArgs(s, i + 1, []).1) else i
  }

  lemma {:induction false} NothingReadIff(s: string, i: nat)
    ensures Parts(s, i, []).0 == [] <==>
            var k := FirstComponent(s, i); k >= |s| || !IsDigit(s[k])
    decreases |s| - i
  {
    hide ReadArgs, Length, Slice;
    if i < |s| && s[i] == 'I' {
      NothingReadIff(s, ReadArgs(s, i + 1, []).1);
    } else if i < |s| && DigitsEnd(s, i) > i {
      var j, n := DigitsEnd(s, i), Length(s, i);
      PartsSpendDigits(s, j + n, [Slice(s, j, n)], Parts(s, j + n, [Slice(s, j, n)]));
      assert [] + [Slice(s, j, n)] == [Slice(s, j, n)];
    }
  }

  /** No identifier is read from the symbol: a nested name whose first component does not
      start with a digit, or a plain name that does not start with a length. */
  predicate Unrecognised(sym: string) {
    if sym == "" then true
    else if sym[0] == 'N' then
      var k := FirstComponent(sym, 1);
      k >= |sym| || !IsDigit(sym[k])
    else !IsDigit(sym[0]) || !PlainTail(sym[DigitsEnd(sym, 0)..]).0
  }

  lemma NestedNameChanges(sym: string)
    requires sym != "" && sym[0] == 'N' && Parts(sym, 1, []).0 != []
    ensures Join(Parts(sym, 1, []).0, "::") != sym
  {
    hide Parts, Join, DigitsIn, Digits;
    var r := Parts(sym, 1, []);
    PartsSpendDigits(sym, 1, [], r);
    NoDigits();
    ColonsHaveNoDigits();
    JoinDigits(r.0, "::");
    SkipDigits(sym, 0);
    assert sym[0..] == sym;
  }

  /** The demangler returns a symbol unchanged if and only if it reads no identifier from it. */
  lemma UnchangedIffUnrecognised(sym: string)
    ensures Name(sym) == sym <==> Unrecognised(sym)
  {
    hide Parts, Join, Length;
    if sym != "" {
      if sym[0] == 'N' {
        NothingReadIff(sym, 1);
        if Parts(sym, 1, []).0 != [] {
          NestedNameChanges(sym);
        }
      } else {
        var j := DigitsEnd(sym, 0);
        assert j > 0 <==> IsDigit(sym[0]);
        if j > 0 && PlainTail(sym[j..]).0 {
          assert |Name(sym)| <= |PlainTail(sym[j..]).1| < |sym|;
        }
      }
    }
  }

  /** Text that is not read is dropped rather than returned: a nested name cut short, and a
      plain name with text left over. */
  lemma UnreadTextIsDropped()
    ensures Name("N9abc") == "abc"
    ensures Name("3abcdef") == "abc"
  {
    LengthNine("N9abc");
    var s := "3abcdef";
    assert DigitsEnd(s, 1) == 1 && DigitsEnd(s, 0) == 1;
    assert s[0..1] == "3" && "3"[..0] == "" && Length(s, 0) == 3;
    assert s[1..] == "abcdef" && Slice("abcdef", 0, 3) == "abc";
  }

  lemma LengthNine(s: string)
    requires s == "N9abc"
    ensures Name(s) == "abc"
  {
    assert DigitsEnd(s, 2) == 2 && DigitsEnd(s, 1) == 2;
    assert s[1..2] == "9" && "9"[..0] == "" && Length(s, 1) == 9;
    assert Slice(s, 2, 9) == "abc";
    assert [] + ["abc"] == ["abc"];
    assert Parts(s, 11, ["abc"]) == (["abc"], 11);
    assert Parts(s, 1, []) == Parts(s, 11, ["abc"]);
  }

  /** What a length with text after it gives: a line of text is cut at the length, with or without
      a newline at its end; text that goes on past a newline is no name at all. */
  lemma PlainNameLines(ds: string, line: string, more: string)
    requires ds != "" && (forall c :: c in ds ==> IsDigit(c)) && (line != "" ==> !IsDigit(line[0]))
    requires '\n' !in line && more != ""
    ensures var cut := if Value(ds) < |line| then line[..Value(ds)] else line;
            Name(ds + line) == cut && Name(ds + (line + "\n")) == cut
    ensures Name(ds + (line + "\n" + more)) == ds + (line + "\n" + more)
  {
    AfterLength(ds, line);
    AfterLength(ds, line + "\n");
    AfterLength(ds, line + "\n" + more);
    TailsOfLine(line, more);
    hide Value, PlainTail, DigitsEnd, Length;
    assert Slice(line, 0, Value(ds)) == if Value(ds) < |line| then line[..Value(ds)] else line;
  }

  lemma TailsOfLine(line: string, more: string)
    requires '\n' !in line && more != ""
    ensures PlainTail(line) == PlainTail(line + "\n") == (true, line)
    ensures !PlainTail(line + "\n" + more).0
  {
    var ended, going := line + "\n", line + "\n" + more;
    assert ended[..|ended| - 1] == line && ended[|ended| - 1] == '\n';
    assert going[|line|] == '\n' && going[..|going| - 1][|line|] == '\n';
  }

  lemma AfterLength(ds: string, rest: string)
    requires ds != "" && (forall c :: c in ds ==> IsDigit(c)) && (rest != "" ==> !IsDigit(rest[0]))
    ensures var s := ds + rest;
            && s[0] != 'N' && DigitsEnd(s, 0) == |ds| && s[|ds|..] == rest && Length(s, 0) == Value(ds)
  {
    hide Value;
    var s := ds + rest;
    DigitsEndAfter(s, 0, |ds|);
    assert s[0..|ds|] == ds;
    assert s[0] == ds[0];
  }

  lemma PlainNameIsRead(id: string)
    requires ValidId(id) && '\n' !in id
    ensures Name(MangleId(id)) == id
  {
    hide Parts, ReadArgs, Length, DigitsEnd, MangleId;
    var s := MangleId(id);
    assert s[0..] == s && s + "" == s;
    ReadsId(s, 0, id, "");
    assert |s[DigitsEnd(s, 0)..]| == |id|;
    assert Slice(s, DigitsEnd(s, 0), |id|) == s[DigitsEnd(s, 0)..];
    assert Slice(id, 0, |id|) == id;
  }

  /** Demangling the mangled form of any name of the grammar gives its pretty form. */
  lemma DemangleInvertsMangle(t: TypeName)
    requires ValidName(t)
    ensures Name(Mangle(t)) == Pretty(t)
  {
    hide Name;
    match t
    case NestedName(cs) => TailIsDropped(cs, "E");
    case PlainName(id) => PlainNameIsRead(id);
  }

  lemma OneComp(id: string, args: TArgs, rest: seq<Comp>)
    requires ValidId(id) && (args.Args? ==> ValidArgs(args.list)) && ValidComps(rest)
    ensures var cs := [Comp(id, args)] + rest;
            && ValidComps(cs) && MangleComps(cs) == MangleId(id) + MangleTArgs(args) + MangleComps(rest)
            && Written(cs) == id + WrittenTArgs(args) + if rest == [] then "" else "::" + Written(rest)
  {
    hide ValidId, ValidArgs, MangleId, MangleTArgs, WrittenTArgs;
    var cs := [Comp(id, args)] + rest;
    assert cs[1..] == rest && cs[0] == Comp(id, args);
  }

  lemma OneArg(arg: Arg, rest: seq<Arg>)
    requires ValidArg(arg) && ValidArgs(rest)
    ensures var list := [arg] + rest;
            && ValidArgs(list) && MangleArgs(list) == MangleArg(arg) + MangleArgs(rest)
            && forall more :: WrittenList(list, more) ==
                 if arg.Builtin? then WrittenList(rest, more)
                 else (if more then ", " else "") + WrittenArg(arg) + WrittenList(rest, true)
  {
    hide ValidArg, MangleArg, WrittenArg;
    var list := [arg] + rest;
    assert list[1..] == rest && list[0] == arg;
  }

  lemma ShortId(id: string)
    requires 0 < |id| < 10
    ensures MangleId(id) == ['0' + |id| as char] + id
  {
  }

  lemma LongerId(id: string)
    requires 10 <= |id| < 100
    ensures MangleId(id) == ['0' + (|id| / 10) as char, '0' + (|id| % 10) as char] + id
  {
    assert Decimal(|id| / 10) == ['0' + (|id| / 10) as char];
  }

  /** A name of two plain components. */
  lemma TwoComps(a: string, b: string)
    requires ValidId(a) && ValidId(b)
    ensures var cs := [Comp(a, NoArgs)] + [Comp(b, NoArgs)];
            && ValidComps(cs) && MangleComps(cs) == MangleId(a) + MangleId(b) && Written(cs) == a + "::" + b
  {
    hide ValidId, MangleId;
    NoComps();
    OneComp(b, NoArgs, []);
    OneComp(a, NoArgs, [Comp(b, NoArgs)]);
    assert [Comp(b, NoArgs)] + [] == [Comp(b, NoArgs)];
  }

  lemma NoComps()
    ensures MangleComps([]) == "" && Written([]) == "" && ValidComps([])
    ensures MangleArgs([]) == "" && ValidArgs([]) && WrittenList([], false) == WrittenList([], true) == ""
  {
  }

  lemma NestedIsRead(cs: seq<Comp>)
    requires cs != [] && ValidComps(cs)
    ensures Name("N" + MangleComps(cs) + "E") == Written(cs)
  {
    hide Name, MangleComps, Written, ValidComps;
    DemangleInvertsMangle(NestedName(cs));
  }

  /** A nested name of two plain components, from their own encodings. */
  lemma TwoCompName(a: string, b: string, ma: string, mb: string)
    requires ValidId(a) && ValidId(b) && ma == MangleId(a) && mb == MangleId(b)
    ensures Name("N" + (ma + mb) + "E") == a + "::" + b
  {
    hide *;
    TwoComps(a, b);
    NestedIsRead([Comp(a, NoArgs)] + [Comp(b, NoArgs)]);
  }

  lemma KnownIds()
    ensures MangleId("PDIEXT") == "6PDIEXT" && ValidId("PDIEXT")
    ensures MangleId("AdvertiseSimplePS3") == "18AdvertiseSimplePS3" && ValidId("AdvertiseSimplePS3")
  {
    ShortId("PDIEXT");
    LongerId("AdvertiseSimplePS3");
    hide MangleId;
  }

  lemma KnownTexts()
    ensures "N" + ("6PDIEXT" + "18AdvertiseSimplePS3") + "E" == "N6PDIEXT18AdvertiseSimplePS3E"
    ensures "PDIEXT" + "::" + "AdvertiseSimplePS3" == "PDIEXT::AdvertiseSimplePS3"
  {
  }

  /** The example in the script's description. */
  lemma KnownName()
    ensures Name("N6PDIEXT18AdvertiseSimplePS3E") == "PDIEXT::AdvertiseSimplePS3"
  {
    hide *;
    KnownIds();
    KnownTexts();
    TwoCompName("PDIEXT", "AdvertiseSimplePS3", "6PDIEXT", "18AdvertiseSimplePS3");
  }

  lemma LastArg(id: string)
    requires ValidId(id)
    ensures ValidArgs([Source(id)]) && MangleArgs([Source(id)]) == MangleId(id)
    ensures WrittenList([Source(id)], true) == ", " + id
  {
    hide ValidId, MangleId;
    NoComps();
    OneArg(Source(id), []);
    assert [Source(id)] + [] == [Source(id)];
  }

  lemma NestedArg(x: string, y: string) returns (arg: Arg)
    requires ValidId(x) && ValidId(y)
    ensures ValidArg(arg) && !arg.Builtin?
    ensures MangleArg(arg) == "N" + (MangleId(x) + MangleId(y)) + "E" && WrittenArg(arg) == x + "::" + y
  {
    hide ValidId, MangleId;
    TwoComps(x, y);
    arg := Nested([Comp(x, NoArgs)] + [Comp(y, NoArgs)]);
    hide MangleComps, Written, ValidComps;
  }

  lemma TwoArgs(first: Arg, id: string)
    requires ValidArg(first) && !first.Builtin? && ValidId(id)
    ensures var list := [first] + [Source(id)];
            && ValidArgs(list) && MangleArgs(list) == MangleArg(first) + MangleId(id)
            && WrittenList(list, false) == WrittenArg(first) + (", " + id)
  {
    hide *;
    LastArg(id);
    OneArg(first, [Source(id)]);
    assert "" + WrittenArg(first) == WrittenArg(first);
  }

  lemma AfterBuiltin(letter: char, list: seq<Arg>)
    requires ValidArg(Builtin(letter)) && ValidArgs(list)
    ensures var all := [Builtin(letter)] + list;
            && ValidArgs(all) && MangleArgs(all) == [letter] + MangleArgs(list)
            && WrittenList(all, false) == WrittenList(list, false)
  {
    assert MangleArg(Builtin(letter)) == [letter];
    hide *;
    OneArg(Builtin(letter), list);
  }

  /** A builtin, a nested name and a plain one as template arguments. */
  lemma ThreeArgs(x: string, y: string, z: string) returns (list: seq<Arg>)
    requires ValidId(x) && ValidId(y) && ValidId(z)
    ensures ValidArgs(list)
    ensures MangleArgs(list) == "i" + (("N" + (MangleId(x) + MangleId(y)) + "E") + MangleId(z))
    ensures WrittenList(list, false) == (x + "::" + y) + (", " + z)
  {
    assert ValidArg(Builtin('i'));
    hide *;
    var nested := NestedArg(x, y);
    TwoArgs(nested, z);
    AfterBuiltin('i', [nested] + [Source(z)]);
    list := [Builtin('i')] + ([nested] + [Source(z)]);
  }

  lemma TemplateName(id: string, x: string, y: string, z: string)
    requires ValidId(id) && ValidId(x) && ValidId(y) && ValidId(z)
    ensures var list := "i" + (("N" + (MangleId(x) + MangleId(y)) + "E") + MangleId(z));
            Name("N" + (MangleId(id) + ("I" + list + "E")) + "E")
            == id + ("<" + ((x + "::" + y) + (", " + z)) + ">")
  {
    hide ValidId, MangleId, Name, MangleArgs, WrittenList, ValidArgs, MangleComps, Written, ValidComps;
    var list := ThreeArgs(x, y, z);
    NoComps();
    OneComp(id, Args(list), []);
    var cs := [Comp(id, Args(list))] + [];
    assert MangleComps(cs) == MangleId(id) + ("I" + MangleArgs(list) + "E");
    assert Written(cs) == id + ("<" + WrittenList(list, false) + ">");
    NestedIsRead(cs);
  }

  lemma KnownTemplateIds()
    ensures MangleId("List") == "4List" && MangleId("gt") == "2gt" && MangleId("Car") == "3Car"
    ensures MangleId("Base") == "4Base"
    ensures ValidId("List") && ValidId("gt") && ValidId("Car") && ValidId("Base")
  {
    ShortId("List");
    ShortId("gt");
    ShortId("Car");
    ShortId("Base");
    hide MangleId;
  }

  lemma KnownTemplateTexts()
    ensures "N" + ("4List" + ("I" + ("i" + (("N" + ("2gt" + "3Car") + "E") + "4Base")) + "E")) + "E"
            == "N4ListIiN2gt3CarE4BaseEE"
    ensures "List" + ("<" + (("gt" + "::" + "Car") + (", " + "Base")) + ">") == "List<gt::Car, Base>"
  {
  }

  /** A template with an argument of each sort. */
  lemma KnownTemplate()
    ensures Name("N4ListIiN2gt3CarE4BaseEE") == "List<gt::Car, Base>"
  {
    hide *;
    KnownTemplateIds();
    KnownTemplateTexts();
    TemplateName("List", "gt", "Car", "Base");
  }
}
