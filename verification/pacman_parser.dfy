/** Reading the output of `pacman -Qi` into a package store (arch-linux/pacman_graph.py,
    `PacmanInstalledSet.from_pacman_qi_stream`), and the small buffer of recent lines kept for
    error reports (`DebuggedStream`).

    The output is a sequence of records separated by blank lines. Each line is either a key
    line, `Key<padding>: value` with the colon in column 16, or a continuation line, which only
    the `Optional Deps` field may have. */
module PacmanParser {
  import opened Wrappers
  import opened PyExceptions
  import opened PyStr
  import opened PacmanValues
  import opened PacmanGraph

  // ---------------------------------------------------------------------------------------
  // The recent-lines buffer

  /** The last `n` lines of `s` (all of them when there are fewer). */
  function LastLines(s: seq<string>, n: nat): (r: seq<string>)
    ensures |r| == if |s| < n then |s| else n
    ensures r == s[|s| - |r|..]
  {
    if |s| <= n then s else s[|s| - n..]
  }

  /** One step of `_recording_generator` as written: append, then drop the oldest line when
      more than ten are held, whatever `num_lines` says. */
  function RecordAsWritten(buffer: seq<string>, line: string): (r: seq<string>)
    ensures r == if |buffer| + 1 > 10 then (buffer + [line])[1..] else buffer + [line]
  {
    var appended := buffer + [line];
    if |appended| > 10 then appended[1..] else appended
  }

  /** The same step bounded by the buffer's own `num_lines`. */
  function Record(buffer: seq<string>, line: string, numLines: nat): seq<string> {
    var appended := buffer + [line];
    if |appended| > numLines then appended[1..] else appended
  }

  /** Recording keeps exactly the last `numLines` lines of the stream seen so far. */
  lemma RecordKeepsLast(seen: seq<string>, line: string, numLines: nat)
    ensures Record(LastLines(seen, numLines), line, numLines) == LastLines(seen + [line], numLines)
  {
    var s := seen + [line];
    if |seen| >= numLines {
      assert LastLines(seen, numLines) + [line] == s[|s| - numLines - 1..];
    } else {
      assert LastLines(seen, numLines) + [line] == s;
    }
  }

  /** Records a whole stream, one line at a time, with the step as written. */
  function RecordAllAsWritten(lines: seq<string>): seq<string> {
    if lines == [] then []
    else RecordAsWritten(RecordAllAsWritten(lines[..|lines| - 1]), lines[|lines| - 1])
  }

  /** With `num_lines = 3`, the buffer as written still holds five lines after five lines. */
  lemma RecordIgnoresNumLines()
    ensures |RecordAllAsWritten(["a", "b", "c", "d", "e"])| == 5 > 3
  {
    var s := ["a", "b", "c", "d", "e"];
    assert s[..4][..3][..2][..1][..0] == [];
    assert |RecordAllAsWritten(s[..4][..3][..2][..1])| == 1;
    assert |RecordAllAsWritten(s[..4][..3][..2])| == 2;
    assert |RecordAllAsWritten(s[..4][..3])| == 3;
    assert |RecordAllAsWritten(s[..4])| == 4;
  }

  /** `DebuggedStream`: a stream wrapper that remembers the last `numLines` lines it passed on. */
  class DebuggedStream {
    var debugLastFewLines: seq<string>
    const numLines: nat
    ghost var consumed: seq<string>

    ghost predicate Valid()
      reads this
    {
      debugLastFewLines == LastLines(consumed, numLines)
    }

    constructor (numLines: nat)
      ensures Valid() && this.numLines == numLines && consumed == []
    {
      this.numLines := numLines;
      debugLastFewLines := [];
      consumed := [];
    }

    /** Pass one line on, remembering it. */
    method Pass(line: string)
      requires Valid()
      modifies this
      ensures Valid() && consumed == old(consumed) + [line]
    {
      RecordKeepsLast(consumed, line, numLines);
      debugLastFewLines := debugLastFewLines + [line];
      if |debugLastFewLines| > numLines {
        debugLastFewLines := debugLastFewLines[1..];
      }
      consumed := consumed + [line];
    }
  }

  // ---------------------------------------------------------------------------------------
  // The line format

  /** A line shorter than 17 characters separates records. */
  predicate IsShort(line: string) {
    |line| < 17
  }

  /** A key line has its colon in column 16. */
  predicate IsKeyLine(line: string) {
    |line| >= 17 && line[16] == ':'
  }

  /** The field name of a key line. */
  function KeyOf(line: string): string
    requires IsKeyLine(line)
  {
    Strip(line[..16])
  }

  /** The value part of a long line: everything after column 16, stripped. */
  function ValueOf(line: string): string
    requires !IsShort(line)
  {
    Strip(line[17..])
  }

  /** A key line that names a new package. */
  predicate IsNameLine(line: string) {
    IsKeyLine(line) && KeyOf(line) == "Name" && ValueOf(line) != "None"
  }

  function NameOf(line: string): string
    requires IsNameLine(line)
  {
    Strip(ValueOf(line))
  }

  /** The current key after the first i lines. */
  function KeyAfter(lines: seq<string>, i: nat): string
    requires i <= |lines|
  {
    if i == 0 then ""
    else
      var line := lines[i - 1];
      if IsShort(line) then ""
      else if IsKeyLine(line) then KeyOf(line)
      else KeyAfter(lines, i - 1)
  }

  /** The current package after the first i lines: the last name of the current record. */
  function CurrentAfter(lines: seq<string>, i: nat): Option<string>
    requires i <= |lines|
  {
    if i == 0 then None
    else
      var line := lines[i - 1];
      if IsShort(line) then None
      else if IsNameLine(line) then Some(NameOf(line))
      else CurrentAfter(lines, i - 1)
  }

  /** The field line i carries a value for: the key of a key line whose value is not `None`,
      or the current key for a continuation line. */
  function EntryKey(lines: seq<string>, i: nat): Option<string>
    requires i < |lines|
  {
    if IsShort(lines[i]) then None
    else if IsKeyLine(lines[i]) then
      if ValueOf(lines[i]) == "None" then None else Some(KeyOf(lines[i]))
    else Some(KeyAfter(lines, i))
  }

  /** Line i carries a value for field k. */
  predicate Entry(lines: seq<string>, i: nat, k: string)
    requires i < |lines|
  {
    EntryKey(lines, i) == Some(k)
  }

  /** The package names declared by the first i lines. */
  function NamesUpTo(lines: seq<string>, i: nat): set<string>
    requires i <= |lines|
  {
    set k | 0 <= k < i && IsNameLine(lines[k]) :: NameOf(lines[k])
  }

  /** The fields that belong to a package and so need one. */
  predicate IsPackageField(k: string) {
    k == "Depends On" || k == "Optional Deps" || k == "Installed Size" || k == "Provides"
  }

  /** The names a list of words stands for: each word stripped of its version requirement. */
  function StrippedNames(words: seq<string>): (r: set<string>)
    ensures forall w :: w in words ==> StripVersionRequirements(w) in r
    ensures forall n :: n in r ==> exists w :: w in words && StripVersionRequirements(w) == n
  {
    set w | w in words :: StripVersionRequirements(w)
  }

  /** The names of the first j + 1 words are those of the first j and of word j. */
  lemma StrippedNamesSnoc(words: seq<string>, j: nat)
    requires j < |words|
    ensures StrippedNames(words[..j + 1]) == StrippedNames(words[..j]) + {StripVersionRequirements(words[j])}
  {
    assert words[..j + 1] == words[..j] + [words[j]];
  }

  /** Each of the names as an alias of `package`. */
  function AliasMap(names: set<string>, package: string): (m: map<string, string>)
    ensures m.Keys == names && forall n :: n in m ==> m[n] == package
  {
    map n | n in names :: package
  }

  /** `Optional Deps`: the text before the first `:` (the description), stripped of blanks and
      of its version requirement; a value without `:` is taken whole. */
  function OptionalName(value: string): (r: string)
    ensures ':' !in value ==> r == value
    ensures ':' in value ==>
              exists k :: 0 <= k < |value| && value[k] == ':' && ':' !in value[..k] &&
                          r == StripVersionRequirements(Strip(value[..k]))
  {
    match IndexOf(value, ':')
    case None => value
    case Some(k) => StripVersionRequirements(Strip(value[..k]))
  }

  // ---------------------------------------------------------------------------------------
  // The store the lines describe

  /** What reading one line does to the store, once the line has passed its checks. */
  datatype Effect =
    | Quiet
    | Declare(name: string)
    | AddDeps(package: string, names: set<string>)
    | AddOptional(package: string, name: string)
    | SetSize(package: string, size: nat)
    | AddProvides(package: string, names: set<string>)

  /** The effect of package field k of `package` with the given value: `Depends On` and
      `Provides` give the stripped words, `Optional Deps` the optional name, `Installed Size`
      the parsed size (a value that does not parse has none, and fails the line). */
  function FieldEffect(k: string, package: string, value: string): Effect
    requires IsPackageField(k)
  {
    if k == "Depends On" then AddDeps(package, StrippedNames(Words(value)))
    else if k == "Optional Deps" then AddOptional(package, OptionalName(value))
    else if k == "Installed Size" then
      match ParseSize(Strip(value))
      case Ok(size) => SetSize(package, size)
      case Err(_) => Quiet
    else AddProvides(package, StrippedNames(Words(value)))
  }

  /** The effect of line i: a `Name` line declares its name, a line that carries a package
      field while a package is current applies the field to that package, and any other line
      changes nothing. */
  function EffectOf(lines: seq<string>, i: nat): Effect
    requires i < |lines|
  {
    if IsNameLine(lines[i]) then Declare(NameOf(lines[i]))
    else match EntryKey(lines, i)
      case Some(k) =>
        if IsPackageField(k) && CurrentAfter(lines, i).Some?
        then FieldEffect(k, CurrentAfter(lines, i).value, ValueOf(lines[i])) else Quiet
      case None => Quiet
  }

  /** The effects of all the lines, in order. */
  function Effects(lines: seq<string>): (es: seq<Effect>)
    ensures |es| == |lines| && forall k :: 0 <= k < |lines| ==> es[k] == EffectOf(lines, k)
  {
    seq(|lines|, k requires 0 <= k < |lines| => EffectOf(lines, k))
  }

  /** The names a sequence of effects declares. */
  function Declared(es: seq<Effect>): set<string> {
    if es == [] then {}
    else Declared(es[..|es| - 1]) + if es[|es| - 1].Declare? then {es[|es| - 1].name} else {}
  }

  /** The dependency names the effects give package p. */
  function DepsOf(es: seq<Effect>, p: string): set<string> {
    if es == [] then {}
    else
      var e := es[|es| - 1];
      DepsOf(es[..|es| - 1], p) + if e.AddDeps? && e.package == p then e.names else {}
  }

  /** The optional dependency names the effects give package p. */
  function OptionalsOf(es: seq<Effect>, p: string): set<string> {
    if es == [] then {}
    else
      var e := es[|es| - 1];
      OptionalsOf(es[..|es| - 1], p) + if e.AddOptional? && e.package == p then {e.name} else {}
  }

  /** The size the last size effect of package p gives it. */
  function SizeOf(es: seq<Effect>, p: string): Option<nat> {
    if es == [] then None
    else
      var e := es[|es| - 1];
      if e.SetSize? && e.package == p then Some(e.size) else SizeOf(es[..|es| - 1], p)
  }

  /** The aliases the effects declare, each naming the package of the last effect that
      provides it. */
  function AliasesOf(es: seq<Effect>): map<string, string> {
    if es == [] then map[]
    else
      var e := es[|es| - 1];
      if e.AddProvides? then AliasesOf(es[..|es| - 1]) + AliasMap(e.names, e.package)
      else AliasesOf(es[..|es| - 1])
  }

  /** The packages the effects declare, each with what the effects give it. */
  function StoreOf(es: seq<Effect>): map<string, Package> {
    map p | p in Declared(es) :: Package(p, DepsOf(es, p), OptionalsOf(es, p), SizeOf(es, p))
  }

  /** A field effect applies to a package. */
  predicate IsField(e: Effect) {
    e.AddDeps? || e.AddOptional? || e.SetSize? || e.AddProvides?
  }

  /** Every field effect applies to a package declared by an earlier effect. */
  ghost predicate Ordered(es: seq<Effect>) {
    forall k :: 0 <= k < |es| && IsField(es[k]) ==> es[k].package in Declared(es[..k])
  }

  /** A name is declared exactly when some effect declares it. */
  lemma {:induction false} DeclaredMembers(es: seq<Effect>, n: string)
    ensures n in Declared(es) <==> exists k :: 0 <= k < |es| && es[k] == Declare(n)
  {
    if es != [] {
      var init := es[..|es| - 1];
      DeclaredMembers(init, n);
      if n in Declared(init) {
        var k :| 0 <= k < |init| && init[k] == Declare(n);
        assert es[k] == Declare(n);
      }
      forall k | 0 <= k < |es| - 1 ensures es[k] == init[k] { }
    }
  }

  /** The dependencies of p are exactly the names of the effects that add dependencies to p. */
  lemma {:induction false} DepsOfMembers(es: seq<Effect>, p: string, n: string)
    ensures n in DepsOf(es, p) <==>
              exists k :: 0 <= k < |es| && es[k].AddDeps? && es[k].package == p && n in es[k].names
  {
    if es != [] {
      var init := es[..|es| - 1];
      DepsOfMembers(init, p, n);
      if n in DepsOf(init, p) {
        var k :| 0 <= k < |init| && init[k].AddDeps? && init[k].package == p && n in init[k].names;
        assert es[k] == init[k];
      }
      forall k | 0 <= k < |es| - 1 ensures es[k] == init[k] { }
    }
  }

  /** The optional dependencies of p are exactly the names of the effects that add optional
      dependencies to p. */
  lemma {:induction false} OptionalsOfMembers(es: seq<Effect>, p: string, n: string)
    ensures n in OptionalsOf(es, p) <==>
              exists k :: 0 <= k < |es| && es[k] == AddOptional(p, n)
  {
    if es != [] {
      var init := es[..|es| - 1];
      OptionalsOfMembers(init, p, n);
      if n in OptionalsOf(init, p) {
        var k :| 0 <= k < |init| && init[k] == AddOptional(p, n);
        assert es[k] == init[k];
      }
      forall k | 0 <= k < |es| - 1 ensures es[k] == init[k] { }
    }
  }

  /** p has a size exactly when some effect sets one. */
  lemma {:induction false} SizeOfSet(es: seq<Effect>, p: string)
    ensures SizeOf(es, p).Some? <==> exists k :: 0 <= k < |es| && es[k].SetSize? && es[k].package == p
  {
    if es != [] {
      var last := |es| - 1;
      var init := es[..last];
      SizeOfSet(init, p);
      if !(es[last].SetSize? && es[last].package == p) {
        if SizeOf(init, p).Some? {
          var k :| 0 <= k < |init| && init[k].SetSize? && init[k].package == p;
          assert es[k] == init[k];
        } else {
          forall k | 0 <= k < |es| ensures !(es[k].SetSize? && es[k].package == p) {
            if k < last {
              assert es[k] == init[k];
            }
          }
        }
      }
    }
  }

  /** The size of a package is the one its last size effect sets. */
  lemma {:induction false} SizeOfLast(es: seq<Effect>, p: string)
    ensures SizeOf(es, p).Some? ==>
              exists k :: 0 <= k < |es| && es[k] == SetSize(p, SizeOf(es, p).value) &&
                          forall j :: k < j < |es| ==> !(es[j].SetSize? && es[j].package == p)
  {
    if es != [] {
      var last := |es| - 1;
      var init := es[..last];
      SizeOfLast(init, p);
      if es[last].SetSize? && es[last].package == p {
        assert es[last] == SetSize(p, SizeOf(es, p).value);
      } else if SizeOf(init, p).Some? {
        var k :| 0 <= k < |init| && init[k] == SetSize(p, SizeOf(init, p).value) &&
                 forall j :: k < j < |init| ==> !(init[j].SetSize? && init[j].package == p);
        assert es[k] == init[k];
        forall j | k < j < |es| ensures !(es[j].SetSize? && es[j].package == p) {
          if j < last {
            assert es[j] == init[j];
          }
        }
      }
    }
  }

  /** A name is an alias exactly when some effect provides it. */
  lemma {:induction false} AliasesOfSet(es: seq<Effect>, n: string)
    ensures n in AliasesOf(es) <==> exists k :: 0 <= k < |es| && es[k].AddProvides? && n in es[k].names
  {
    if es != [] {
      var last := |es| - 1;
      var init := es[..last];
      AliasesOfSet(init, n);
      if !(es[last].AddProvides? && n in es[last].names) {
        if n in AliasesOf(init) {
          var k :| 0 <= k < |init| && init[k].AddProvides? && n in init[k].names;
          assert es[k] == init[k];
        } else {
          forall k | 0 <= k < |es| ensures !(es[k].AddProvides? && n in es[k].names) {
            if k < last {
              assert es[k] == init[k];
            }
          }
        }
      }
    }
  }

  /** An alias names the package of the last effect that provides it. */
  lemma {:induction false} AliasesOfLast(es: seq<Effect>, n: string)
    ensures n in AliasesOf(es) ==>
              exists k :: 0 <= k < |es| && es[k].AddProvides? && n in es[k].names &&
                          AliasesOf(es)[n] == es[k].package &&
                          forall j :: k < j < |es| ==> !(es[j].AddProvides? && n in es[j].names)
  {
    if es != [] {
      var last := |es| - 1;
      var init := es[..last];
      var e := es[last];
      AliasesOfLast(init, n);
      if e.AddProvides? && n in e.names {
        assert AliasesOf(es)[n] == e.package;
      } else if n in AliasesOf(init) {
        var k :| 0 <= k < |init| && init[k].AddProvides? && n in init[k].names &&
                 AliasesOf(init)[n] == init[k].package &&
                 forall j :: k < j < |init| ==> !(init[j].AddProvides? && n in init[j].names);
        assert es[k] == init[k];
        forall j | k < j < |es| ensures !(es[j].AddProvides? && n in es[j].names) {
          if j < last {
            assert es[j] == init[j];
          }
        }
      }
    }
  }

  /** Dropping the last effect keeps the order. */
  lemma OrderedInit(es: seq<Effect>)
    requires es != [] && Ordered(es)
    ensures Ordered(es[..|es| - 1])
  {
    var init := es[..|es| - 1];
    forall k | 0 <= k < |init| && IsField(init[k]) ensures init[k].package in Declared(init[..k]) {
      assert init[..k] == es[..k];
    }
  }

  /** In ordered effects a package that is not declared has nothing. */
  lemma {:induction false} OrderedEmpty(es: seq<Effect>, p: string)
    requires Ordered(es) && p !in Declared(es)
    ensures DepsOf(es, p) == {} && OptionalsOf(es, p) == {} && SizeOf(es, p) == None
  {
    if es != [] {
      var init := es[..|es| - 1];
      OrderedInit(es);
      OrderedEmpty(init, p);
      assert es[..|es| - 1] == init;
    }
  }

  /** One effect more, seen from the declared names and the aliases. */
  lemma DeclaredStep(es: seq<Effect>, e: Effect)
    ensures Declared(es + [e]) == Declared(es) + if e.Declare? then {e.name} else {}
    ensures AliasesOf(es + [e]) == if e.AddProvides? then AliasesOf(es) + AliasMap(e.names, e.package) else AliasesOf(es)
  {
    assert (es + [e])[..|es|] == es;
  }

  /** The stored package of a declared name. */
  lemma StoreAt(es: seq<Effect>, p: string)
    requires p in Declared(es)
    ensures p in StoreOf(es) && StoreOf(es)[p] == Package(p, DepsOf(es, p), OptionalsOf(es, p), SizeOf(es, p))
  {
  }

  /** One effect more, seen from one package name. */
  lemma EffectsStepAt(es: seq<Effect>, e: Effect, p: string)
    ensures DepsOf(es + [e], p) == DepsOf(es, p) + if e.AddDeps? && e.package == p then e.names else {}
    ensures OptionalsOf(es + [e], p) == OptionalsOf(es, p) + if e.AddOptional? && e.package == p then {e.name} else {}
    ensures SizeOf(es + [e], p) == if e.SetSize? && e.package == p then Some(e.size) else SizeOf(es, p)
  {
    assert (es + [e])[..|es|] == es;
  }

  /** One effect more only adds the name it declares to the store's keys. */
  lemma StoreKeys(es: seq<Effect>, e: Effect)
    ensures StoreOf(es + [e]).Keys == StoreOf(es).Keys + if e.Declare? then {e.name} else {}
  {
    DeclaredStep(es, e);
  }

  /** Replacing the value of a present key keeps the keys. */
  lemma UpdateKeys(m: map<string, Package>, k: string, v: Package)
    requires k in m
    ensures m[k := v].Keys == m.Keys
  {
  }

  /** Two maps with the same keys and the same value under each key are equal. */
  lemma SameMaps(a: map<string, Package>, b: map<string, Package>)
    requires a.Keys == b.Keys && forall k :: k in a ==> a[k] == b[k]
    ensures a == b
  {
  }

  /** An effect that does nothing leaves the store and the aliases. */
  lemma StoreQuiet(es: seq<Effect>)
    ensures StoreOf(es + [Quiet]) == StoreOf(es) && AliasesOf(es + [Quiet]) == AliasesOf(es)
  {
    DeclaredStep(es, Quiet);
    StoreKeys(es, Quiet);
    var before, after := StoreOf(es), StoreOf(es + [Quiet]);
    forall p | p in after ensures after[p] == before[p] {
      EffectsStepAt(es, Quiet, p);
      StoreAt(es, p);
      StoreAt(es + [Quiet], p);
    }
    SameMaps(after, before);
  }

  /** Declaring a new name, in ordered effects, adds an empty package. */
  lemma StoreDeclare(es: seq<Effect>, name: string)
    requires Ordered(es) && name !in Declared(es)
    ensures StoreOf(es + [Declare(name)]) == StoreOf(es)[name := NewPackage(name)]
    ensures AliasesOf(es + [Declare(name)]) == AliasesOf(es)
  {
    var e := Declare(name);
    DeclaredStep(es, e);
    StoreKeys(es, e);
    OrderedEmpty(es, name);
    var before, after := StoreOf(es), StoreOf(es + [e]);
    var expected := before[name := NewPackage(name)];
    assert expected.Keys == before.Keys + {name};
    forall p | p in after ensures after[p] == expected[p] {
      StoreDeclareAt(es, name, p);
    }
    SameMaps(after, expected);
  }

  /** Declaring a new name, seen from one name. */
  lemma StoreDeclareAt(es: seq<Effect>, name: string, p: string)
    requires Ordered(es) && name !in Declared(es) && p in Declared(es + [Declare(name)])
    ensures p in StoreOf(es)[name := NewPackage(name)]
    ensures StoreOf(es + [Declare(name)])[p] == StoreOf(es)[name := NewPackage(name)][p]
  {
    var e := Declare(name);
    DeclaredStep(es, e);
    OrderedEmpty(es, name);
    EffectsStepAt(es, e, p);
    StoreAt(es + [e], p);
    if p != name {
      StoreAt(es, p);
    }
  }

  /** Adding dependencies to a declared package, seen from one name. */
  lemma StoreDepsAt(es: seq<Effect>, package: string, names: set<string>, p: string)
    requires package in Declared(es) && p in Declared(es)
    ensures var before := StoreOf(es); var pkg := before[package];
            p in StoreOf(es + [AddDeps(package, names)]) &&
            StoreOf(es + [AddDeps(package, names)])[p] ==
              before[package := pkg.(dependencies := pkg.dependencies + names)][p]
  {
    var e := AddDeps(package, names);
    DeclaredStep(es, e);
    EffectsStepAt(es, e, p);
    StoreAt(es, p);
    StoreAt(es, package);
    StoreAt(es + [e], p);
  }

  /** Adding dependencies to a declared package. */
  lemma StoreDeps(es: seq<Effect>, package: string, names: set<string>)
    requires package in Declared(es)
    ensures var before := StoreOf(es); var pkg := before[package];
            StoreOf(es + [AddDeps(package, names)]) ==
              before[package := pkg.(dependencies := pkg.dependencies + names)]
    ensures AliasesOf(es + [AddDeps(package, names)]) == AliasesOf(es)
  {
    var e := AddDeps(package, names);
    DeclaredStep(es, e);
    StoreKeys(es, e);
    StoreAt(es, package);
    var before, after := StoreOf(es), StoreOf(es + [e]);
    var expected := before[package := before[package].(dependencies := before[package].dependencies + names)];
    UpdateKeys(before, package, before[package].(dependencies := before[package].dependencies + names));
    forall p | p in after ensures after[p] == expected[p] {
      StoreDepsAt(es, package, names, p);
    }
    SameMaps(after, expected);
  }

  /** Adding an optional dependency to a declared package, seen from one name. */
  lemma StoreOptionalAt(es: seq<Effect>, package: string, name: string, p: string)
    requires package in Declared(es) && p in Declared(es)
    ensures var before := StoreOf(es); var pkg := before[package];
            p in StoreOf(es + [AddOptional(package, name)]) &&
            StoreOf(es + [AddOptional(package, name)])[p] ==
              before[package := pkg.(optionalDependencies := pkg.optionalDependencies + {name})][p]
  {
    var e := AddOptional(package, name);
    DeclaredStep(es, e);
    EffectsStepAt(es, e, p);
    StoreAt(es, p);
    StoreAt(es, package);
    StoreAt(es + [e], p);
  }

  /** Adding an optional dependency to a declared package. */
  lemma StoreOptional(es: seq<Effect>, package: string, name: string)
    requires package in Declared(es)
    ensures var before := StoreOf(es); var pkg := before[package];
            StoreOf(es + [AddOptional(package, name)]) ==
              before[package := pkg.(optionalDependencies := pkg.optionalDependencies + {name})]
    ensures AliasesOf(es + [AddOptional(package, name)]) == AliasesOf(es)
  {
    var e := AddOptional(package, name);
    DeclaredStep(es, e);
    StoreKeys(es, e);
    StoreAt(es, package);
    var before, after := StoreOf(es), StoreOf(es + [e]);
    var expected := before[package := before[package].(optionalDependencies := before[package].optionalDependencies + {name})];
    UpdateKeys(before, package, before[package].(optionalDependencies := before[package].optionalDependencies + {name}));
    forall p | p in after ensures after[p] == expected[p] {
      StoreOptionalAt(es, package, name, p);
    }
    SameMaps(after, expected);
  }

  /** Setting the size of a declared package, seen from one name. */
  lemma StoreSizeAt(es: seq<Effect>, package: string, size: nat, p: string)
    requires package in Declared(es) && p in Declared(es)
    ensures var before := StoreOf(es);
            p in StoreOf(es + [SetSize(package, size)]) &&
            StoreOf(es + [SetSize(package, size)])[p] == before[package := before[package].(size := Some(size))][p]
  {
    var e := SetSize(package, size);
    DeclaredStep(es, e);
    EffectsStepAt(es, e, p);
    StoreAt(es, p);
    StoreAt(es, package);
    StoreAt(es + [e], p);
  }

  /** Setting the size of a declared package. */
  lemma StoreSize(es: seq<Effect>, package: string, size: nat)
    requires package in Declared(es)
    ensures var before := StoreOf(es);
            StoreOf(es + [SetSize(package, size)]) == before[package := before[package].(size := Some(size))]
    ensures AliasesOf(es + [SetSize(package, size)]) == AliasesOf(es)
  {
    var e := SetSize(package, size);
    DeclaredStep(es, e);
    StoreKeys(es, e);
    StoreAt(es, package);
    var before, after := StoreOf(es), StoreOf(es + [e]);
    var expected := before[package := before[package].(size := Some(size))];
    UpdateKeys(before, package, before[package].(size := Some(size)));
    forall p | p in after ensures after[p] == expected[p] {
      StoreSizeAt(es, package, size, p);
    }
    SameMaps(after, expected);
  }

  /** Providing aliases leaves the packages. */
  lemma StoreProvides(es: seq<Effect>, package: string, names: set<string>)
    ensures StoreOf(es + [AddProvides(package, names)]) == StoreOf(es)
    ensures AliasesOf(es + [AddProvides(package, names)]) == AliasesOf(es) + AliasMap(names, package)
  {
    var e := AddProvides(package, names);
    DeclaredStep(es, e);
    StoreKeys(es, e);
    var before, after := StoreOf(es), StoreOf(es + [e]);
    forall p | p in after ensures after[p] == before[p] {
      EffectsStepAt(es, e, p);
      StoreAt(es, p);
      StoreAt(es + [e], p);
    }
    SameMaps(after, before);
  }

  /** A field effect of a declared package changes the store as the field's handler does. */
  lemma StoreField(es: seq<Effect>, k: string, package: string, value: string)
    requires IsPackageField(k) && package in Declared(es)
    requires k == "Installed Size" ==> ParseSize(Strip(value)).Ok?
    ensures package in StoreOf(es)
    ensures FieldApplied(k, package, value, StoreOf(es), AliasesOf(es),
                         StoreOf(es + [FieldEffect(k, package, value)]),
                         AliasesOf(es + [FieldEffect(k, package, value)]))
  {
    if k == "Depends On" {
      StoreDeps(es, package, StrippedNames(Words(value)));
    } else if k == "Optional Deps" {
      StoreOptional(es, package, OptionalName(value));
    } else if k == "Installed Size" {
      StoreSize(es, package, ParseSize(Strip(value)).value);
    } else {
      StoreProvides(es, package, StrippedNames(Words(value)));
    }
  }

  /** A field effect of a declared package keeps the effects ordered. */
  lemma OrderedSnoc(es: seq<Effect>, e: Effect)
    requires Ordered(es) && (IsField(e) ==> e.package in Declared(es))
    ensures Ordered(es + [e])
  {
    var es' := es + [e];
    forall k | 0 <= k < |es'| && IsField(es'[k]) ensures es'[k].package in Declared(es'[..k]) {
      if k < |es| {
        assert es'[..k] == es[..k];
      } else {
        assert es'[..k] == es;
      }
    }
  }

  /** The store the first i lines describe. */
  function PackagesAfter(lines: seq<string>, i: nat): map<string, Package>
    requires i <= |lines|
  {
    StoreOf(Effects(lines)[..i])
  }

  /** The aliases the first i lines declare. */
  function AliasesAfter(lines: seq<string>, i: nat): map<string, string>
    requires i <= |lines|
  {
    AliasesOf(Effects(lines)[..i])
  }

  /** The effects of the first i + 1 lines are those of the first i and line i's. */
  lemma EffectsSnoc(lines: seq<string>, i: nat)
    requires i < |lines|
    ensures Effects(lines)[..i + 1] == Effects(lines)[..i] + [EffectOf(lines, i)]
  {
  }

  /** Line i adds to the declared names exactly the name it declares. */
  lemma NamesStep(lines: seq<string>, i: nat)
    requires i < |lines|
    ensures NamesUpTo(lines, i + 1) ==
              NamesUpTo(lines, i) + (if IsNameLine(lines[i]) then {NameOf(lines[i])} else {})
  {
  }

  /** The current package is always one the lines before have declared. */
  lemma {:induction false} CurrentDeclared(lines: seq<string>, i: nat)
    requires i <= |lines|
    ensures CurrentAfter(lines, i).Some? ==> CurrentAfter(lines, i).value in NamesUpTo(lines, i)
  {
    if i > 0 {
      NamesStep(lines, i - 1);
      CurrentDeclared(lines, i - 1);
    }
  }

  /** A line declares a name exactly when it is a `Name` line, and then it declares that name. */
  lemma EffectDeclares(lines: seq<string>, i: nat)
    requires i < |lines|
    ensures EffectOf(lines, i).Declare? <==> IsNameLine(lines[i])
    ensures IsNameLine(lines[i]) ==> EffectOf(lines, i).name == NameOf(lines[i])
    ensures IsField(EffectOf(lines, i)) ==>
              CurrentAfter(lines, i).Some? && EffectOf(lines, i).package == CurrentAfter(lines, i).value
  {
  }

  /** The effects of the lines declare the names of their `Name` lines, and apply each field
      to a package an earlier line declared. */
  lemma {:induction false} EffectsDeclare(lines: seq<string>, i: nat)
    requires i <= |lines|
    ensures Declared(Effects(lines)[..i]) == NamesUpTo(lines, i)
    ensures Ordered(Effects(lines)[..i])
  {
    if i > 0 {
      var j := i - 1;
      EffectsDeclare(lines, j);
      EffectsSnoc(lines, j);
      var es := Effects(lines)[..j];
      var e := EffectOf(lines, j);
      assert (es + [e])[..|es|] == es;
      NamesStep(lines, j);
      EffectDeclares(lines, j);
      CurrentDeclared(lines, j);
      OrderedSnoc(es, e);
    }
  }

  // ---------------------------------------------------------------------------------------
  // The field handlers

  /** The store after the handler of package field k has taken `value` for `package`:
      `Depends On` adds the stripped words to its dependencies, `Optional Deps` adds the
      optional name, `Installed Size` sets the parsed size, and `Provides` makes each stripped
      word an alias of the package. */
  ghost predicate FieldApplied(k: string, package: string, value: string,
                               packages: map<string, Package>, aliases: map<string, string>,
                               packages': map<string, Package>, aliases': map<string, string>)
    requires package in packages
  {
    var pkg := packages[package];
    if k == "Depends On" then
      packages' == packages[package := pkg.(dependencies := pkg.dependencies + StrippedNames(Words(value)))] &&
      aliases' == aliases
    else if k == "Optional Deps" then
      packages' == packages[package := pkg.(optionalDependencies := pkg.optionalDependencies + {OptionalName(value)})] &&
      aliases' == aliases
    else if k == "Installed Size" then
      ParseSize(Strip(value)).Ok? &&
      packages' == packages[package := pkg.(size := Some(ParseSize(Strip(value)).value))] &&
      aliases' == aliases
    else
      packages' == packages &&
      aliases' == aliases + AliasMap(StrippedNames(Words(value)), package)
  }

  /** Adding one more name to a package's dependencies after a batch of them. */
  lemma DepsUpdate(m: map<string, Package>, package: string, pkg: Package, names: set<string>, d: string)
    ensures var m' := m[package := pkg.(dependencies := pkg.dependencies + names)];
            m'[package := m'[package].(dependencies := m'[package].dependencies + {d})] ==
            m[package := pkg.(dependencies := pkg.dependencies + (names + {d}))]
  {
    var m' := m[package := pkg.(dependencies := pkg.dependencies + names)];
    assert m'[package].dependencies + {d} == pkg.dependencies + (names + {d});
    assert m'[package].(dependencies := m'[package].dependencies + {d}) ==
           pkg.(dependencies := pkg.dependencies + (names + {d}));
  }

  /** Recording one more dependency name as unknown after a batch of them. */
  lemma UnknownsSnoc(unknowns: set<string>, names: set<string>, d: string, keys: set<string>, aliasKeys: set<string>)
    ensures var recorded := unknowns + (names - keys - aliasKeys);
            (if d in keys || d in aliasKeys then recorded else recorded + {d}) ==
            unknowns + ((names + {d}) - keys - aliasKeys)
  {
  }

  /** `Depends On`: every word of the value, stripped of its version requirement, becomes a
      dependency; a name that is neither a package nor an alias becomes an unknown. */
  method AddDependencies(s: PacmanInstalledSet, package: string, words: seq<string>)
    requires s.Valid() && package in s.packages
    modifies s`packages, s`unknowns
    ensures s.Valid()
    ensures old(s.UnknownsComplete()) ==> s.UnknownsComplete()
    ensures old(s.Table().TargetsInstalled()) ==> s.Table().TargetsInstalled()
    ensures var pkg := old(s.packages)[package];
            s.packages == old(s.packages)[package := pkg.(dependencies := pkg.dependencies + StrippedNames(words))]
    ensures s.unknowns == old(s.unknowns) + (StrippedNames(words) - s.packages.Keys - s.aliases.Keys)
  {
    ghost var before := s.packages;
    ghost var pkg := s.packages[package];
    ghost var complete := s.UnknownsComplete();
    ghost var installed := s.Table().TargetsInstalled();
    assert StrippedNames(words[..0]) == {};
    assert pkg.(dependencies := pkg.dependencies + {}) == pkg;
    assert before[package := pkg] == before;
    for j := 0 to |words|
      invariant s.Valid()
      invariant s.packages == before[package := pkg.(dependencies := pkg.dependencies + StrippedNames(words[..j]))]
      invariant s.unknowns == old(s.unknowns) + (StrippedNames(words[..j]) - before.Keys - s.aliases.Keys)
      invariant complete ==> s.UnknownsComplete()
      invariant installed ==> s.Table().TargetsInstalled()
    {
      ghost var names := StrippedNames(words[..j]);
      ghost var mid := s.packages;
      var dependency := StripVersionRequirements(words[j]);
      assert mid[package] == pkg.(dependencies := pkg.dependencies + names);
      ghost var unknowns := s.unknowns;
      assert mid.Keys == before.Keys;
      var added := s.AddDependency(package, dependency);
      assert s.unknowns == if dependency in before.Keys || dependency in s.aliases.Keys then unknowns else unknowns + {dependency};
      UnknownsSnoc(old(s.unknowns), names, dependency, before.Keys, s.aliases.Keys);
      assert s.packages == mid[package := mid[package].(dependencies := mid[package].dependencies + {dependency})];
      DepsUpdate(before, package, pkg, names, dependency);
      StrippedNamesSnoc(words, j);
      assert s.packages == before[package := pkg.(dependencies := pkg.dependencies + (names + {dependency}))];
      assert s.unknowns == old(s.unknowns) + ((names + {dependency}) - before.Keys - s.aliases.Keys);
    }
    assert words[..|words|] == words;
  }

  /** `Installed Size`: the package's size becomes the parsed value. */
  method SetInstalledSize(s: PacmanInstalledSet, package: string, size: nat)
    requires s.Valid() && package in s.packages
    modifies s`packages
    ensures s.Valid()
    ensures old(s.UnknownsComplete()) ==> s.UnknownsComplete()
    ensures s.packages == old(s.packages)[package := old(s.packages)[package].(size := Some(size))]
  {
    s.packages := s.packages[package := s.packages[package].(size := Some(size))];
    ReferencedKeepsDeps(old(s.packages), s.packages);
  }

  /** Adding one alias to a batch of aliases of the same package. */
  lemma AliasesSnoc(aliases: map<string, string>, names: set<string>, n: string, package: string)
    ensures (aliases + AliasMap(names, package))[n := package] == aliases + AliasMap(names + {n}, package)
  {
  }

  /** `Provides`: every word of the value, stripped of its version requirement, becomes an
      alias of the package and stops being an unknown. */
  method AddAliases(s: PacmanInstalledSet, package: string, words: seq<string>)
    requires s.Valid() && package in s.packages
    modifies s`aliases, s`unknowns
    ensures s.Valid()
    ensures s.aliases == old(s.aliases) + AliasMap(StrippedNames(words), package)
    ensures s.unknowns == old(s.unknowns) - StrippedNames(words)
    ensures old(s.UnknownsComplete()) ==> s.UnknownsComplete()
    ensures old(s.Table().TargetsInstalled()) ==> s.Table().TargetsInstalled()
  {
    ghost var complete := s.UnknownsComplete();
    ghost var installed := s.Table().TargetsInstalled();
    for j := 0 to |words|
      invariant s.Valid()
      invariant s.aliases == old(s.aliases) + AliasMap(StrippedNames(words[..j]), package)
      invariant s.unknowns == old(s.unknowns) - StrippedNames(words[..j])
      invariant complete ==> s.UnknownsComplete()
      invariant installed ==> s.Table().TargetsInstalled()
    {
      ghost var names := StrippedNames(words[..j]);
      var alias := StripVersionRequirements(words[j]);
      s.AddAlias(alias, package);
      AliasesSnoc(old(s.aliases), names, alias, package);
      assert (old(s.unknowns) - names) - {alias} == old(s.unknowns) - (names + {alias});
      StrippedNamesSnoc(words, j);
    }
    assert words[..|words|] == words;
  }

  /** A package field of the current package: its handler updates the store, and only an
      `Installed Size` that does not parse fails, changing nothing. */
  method ApplyField(s: PacmanInstalledSet, k: string, package: string, value: string)
    returns (r: Result<(), Exception>)
    requires s.Valid() && IsPackageField(k) && package in s.packages
    modifies s`packages, s`unknowns, s`aliases
    ensures s.Valid()
    ensures old(s.UnknownsComplete()) ==> s.UnknownsComplete()
    ensures old(s.Table().TargetsInstalled()) ==> s.Table().TargetsInstalled()
    ensures r.Err? <==> k == "Installed Size" && ParseSize(Strip(value)).Err?
    ensures r.Err? ==> r.error == ParseSize(Strip(value)).error &&
                       (r.error.ValueError? || r.error.KeyError?) &&
                       s.packages == old(s.packages) && s.aliases == old(s.aliases)
    ensures r.Ok? ==> FieldApplied(k, package, value, old(s.packages), old(s.aliases), s.packages, s.aliases)
    ensures k == "Depends On" ==>
              s.unknowns == old(s.unknowns) + (StrippedNames(Words(value)) - s.packages.Keys - s.aliases.Keys)
    ensures k == "Provides" ==> s.unknowns == old(s.unknowns) - StrippedNames(Words(value))
    ensures k == "Optional Deps" || k == "Installed Size" ==> s.unknowns == old(s.unknowns)
  {
    r := Ok(());
    if k == "Depends On" {
      AddDependencies(s, package, Words(value));
    } else if k == "Optional Deps" {
      var added := s.AddOptionalDependency(package, OptionalName(value));
    } else if k == "Installed Size" {
      var size := ParseSize(Strip(value));
      if size.Err? {
        r := Err(size.error);
      } else {
        SetInstalledSize(s, package, size.value);
      }
    } else {
      AddAliases(s, package, Words(value));
    }
  }

  /** How the error for a package field met before any `Name` line refers to the field. */
  function FieldNoun(k: string): (r: string)
    requires IsPackageField(k)
    ensures r != []
  {
    match k
    case "Depends On" => "dependencies"
    case "Optional Deps" => "optional dependencies"
    case "Installed Size" => "size"
    case _ => "provides"
  }

  /** The dispatch on the current key k for one value: `Name` adds a package, which fails for
      a name already added; a package field needs a current package and updates it; any
      other key changes nothing. */
  method ApplyEntry(s: PacmanInstalledSet, k: string, current: Option<string>, value: string)
    returns (r: Result<Option<string>, Exception>)
    requires s.Valid()
    requires current.Some? ==> current.value in s.packages
    modifies s`packages, s`unknowns, s`aliases
    ensures s.Valid()
    ensures old(s.UnknownsComplete()) ==> s.UnknownsComplete()
    ensures old(s.Table().TargetsInstalled()) ==> s.Table().TargetsInstalled()
    ensures r.Err? ==> r.error.ValueError? || r.error.KeyError?
    ensures k == "Name" ==>
              (r.Ok? <==> Strip(value) !in old(s.packages)) &&
              (r.Ok? ==> r.value == Some(Strip(value)) &&
                         s.packages == old(s.packages)[Strip(value) := NewPackage(Strip(value))] &&
                         s.aliases == old(s.aliases))
    ensures IsPackageField(k) ==>
              (r.Ok? <==> current.Some? && (k == "Installed Size" ==> ParseSize(Strip(value)).Ok?)) &&
              (r.Ok? ==> r.value == current &&
                         FieldApplied(k, current.value, value, old(s.packages), old(s.aliases), s.packages, s.aliases))
    ensures k != "Name" && !IsPackageField(k) ==>
              r == Ok(current) && s.packages == old(s.packages) && s.aliases == old(s.aliases) &&
              s.unknowns == old(s.unknowns)
  {
    r := Ok(current);
    if k == "Name" {
      var name := Strip(value);
      var added := s.AddPackage(name);
      r := if added.Err? then Err(added.error) else Ok(Some(name));
    } else if IsPackageField(k) && current.None? {
      r := Err(ValueError("No package name found before " + FieldNoun(k)));
    } else if IsPackageField(k) {
      var applied := ApplyField(s, k, current.value, value);
      r := if applied.Err? then Err(applied.error) else Ok(current);
    }
  }

  // ---------------------------------------------------------------------------------------
  // One line at a time

  /** The shape a line must have to be read: a short line must be blank, a continuation
      belongs to `Optional Deps`, a package field needs a current package, and an
      `Installed Size` must parse. */
  ghost predicate LineShape(lines: seq<string>, i: nat)
    requires i < |lines|
  {
    (!IsShort(lines[i]) || Strip(lines[i]) == []) &&
    (!IsShort(lines[i]) && !IsKeyLine(lines[i]) ==> KeyAfter(lines, i) == "Optional Deps") &&
    (EntryKey(lines, i).Some? && IsPackageField(EntryKey(lines, i).value) ==>
       CurrentAfter(lines, i).Some?) &&
    (Entry(lines, i, "Installed Size") ==> ParseSize(Strip(ValueOf(lines[i]))).Ok?)
  }

  /** What reading a line checks: its shape, and that a `Name` is new. */
  ghost predicate LineOk(lines: seq<string>, i: nat)
    requires i < |lines|
  {
    LineShape(lines, i) && (IsNameLine(lines[i]) ==> NameOf(lines[i]) !in NamesUpTo(lines, i))
  }

  /** The rest of an iteration for a line that carries a value for `key`. */
  method ReadEntry(s: PacmanInstalledSet, lines: seq<string>, i: nat, key: string,
                   current: Option<string>)
    returns (r: Result<(string, Option<string>), Exception>)
    requires i < |lines| && current == CurrentAfter(lines, i)
    requires EntryKey(lines, i) == Some(key) && KeyAfter(lines, i + 1) == key
    requires !IsKeyLine(lines[i]) ==> key == "Optional Deps"
    requires s.Valid() && s.packages == PackagesAfter(lines, i) && s.aliases == AliasesAfter(lines, i)
    modifies s`packages, s`unknowns, s`aliases
    ensures s.Valid()
    ensures old(s.UnknownsComplete()) ==> s.UnknownsComplete()
    ensures old(s.Table().TargetsInstalled()) ==> s.Table().TargetsInstalled()
    ensures r.Err? ==> r.error.ValueError? || r.error.KeyError?
    ensures r.Ok? <==> LineOk(lines, i)
    ensures r.Ok? ==> r.value == (KeyAfter(lines, i + 1), CurrentAfter(lines, i + 1)) &&
                      s.packages == PackagesAfter(lines, i + 1) && s.aliases == AliasesAfter(lines, i + 1)
  {
    ghost var es := Effects(lines)[..i];
    EffectsDeclare(lines, i);
    EffectsSnoc(lines, i);
    CurrentDeclared(lines, i);
    EntryIs(lines, i, key);
    var next := ApplyEntry(s, key, current, ValueOf(lines[i]));
    r := if next.Err? then Err(next.error) else Ok((key, next.value));
    if key == "Name" {
      if next.Ok? {
        StoreDeclare(es, Strip(ValueOf(lines[i])));
      }
    } else if IsPackageField(key) {
      if next.Ok? {
        StoreField(es, key, current.value, ValueOf(lines[i]));
      }
    } else {
      StoreQuiet(es);
    }
  }

  /** A long line that is not a skipped `None` value is an entry for exactly one field; it
      declares a name exactly when that field is `Name`, and its effect is the field's. */
  lemma EntryIs(lines: seq<string>, i: nat, key: string)
    requires i < |lines| && EntryKey(lines, i) == Some(key)
    requires !IsKeyLine(lines[i]) ==> key == "Optional Deps"
    ensures !IsShort(lines[i])
    ensures IsNameLine(lines[i]) <==> key == "Name"
    ensures key != "Name" ==> CurrentAfter(lines, i + 1) == CurrentAfter(lines, i)
    ensures key == "Name" ==>
              NameOf(lines[i]) == Strip(ValueOf(lines[i])) &&
              CurrentAfter(lines, i + 1) == Some(Strip(ValueOf(lines[i]))) &&
              EffectOf(lines, i) == Declare(Strip(ValueOf(lines[i])))
    ensures IsPackageField(key) && CurrentAfter(lines, i).Some? ==>
              EffectOf(lines, i) == FieldEffect(key, CurrentAfter(lines, i).value, ValueOf(lines[i]))
    ensures key != "Name" && !IsPackageField(key) ==> EffectOf(lines, i) == Quiet
  {
  }

  /** A short line, or a key line whose value is `None`, changes nothing. */
  lemma QuietLine(lines: seq<string>, i: nat)
    requires i < |lines| && EntryKey(lines, i).None?
    ensures PackagesAfter(lines, i + 1) == PackagesAfter(lines, i)
    ensures AliasesAfter(lines, i + 1) == AliasesAfter(lines, i)
  {
    EffectsSnoc(lines, i);
    assert EffectOf(lines, i) == Quiet;
    StoreQuiet(Effects(lines)[..i]);
  }

  /** One iteration of the reading loop: line i, with the key and current package the earlier
      lines left, fails exactly when the line is not as `LineOk` describes, and otherwise moves
      the store on to what the first i + 1 lines describe. */
  method ReadLine(s: PacmanInstalledSet, lines: seq<string>, i: nat, key: string,
                  current: Option<string>)
    returns (r: Result<(string, Option<string>), Exception>)
    requires i < |lines| && key == KeyAfter(lines, i) && current == CurrentAfter(lines, i)
    requires s.Valid() && s.packages == PackagesAfter(lines, i) && s.aliases == AliasesAfter(lines, i)
    modifies s`packages, s`unknowns, s`aliases
    ensures s.Valid()
    ensures old(s.UnknownsComplete()) ==> s.UnknownsComplete()
    ensures old(s.Table().TargetsInstalled()) ==> s.Table().TargetsInstalled()
    ensures r.Err? ==> r.error.ValueError? || r.error.KeyError?
    ensures r.Ok? <==> LineOk(lines, i)
    ensures r.Ok? ==> r.value == (KeyAfter(lines, i + 1), CurrentAfter(lines, i + 1)) &&
                      s.packages == PackagesAfter(lines, i + 1) && s.aliases == AliasesAfter(lines, i + 1)
  {
    var line := lines[i];
    if |line| < 17 {
      if Strip(line) != [] {
        r := Err(ValueError("Short line: " + line));
      } else {
        QuietLine(lines, i);
        r := Ok(("", None));
      }
    } else {
      var value := Strip(line[17..]);
      var key := if line[16] == ':' then Strip(line[..16]) else key;
      if line[16] != ':' && key != "Optional Deps" {
        r := Err(ValueError("Continuation of previous line not in optdeps: '" + value +
                            "' in key '" + key + "'"));
      } else if line[16] == ':' && value == "None" {
        QuietLine(lines, i);
        r := Ok((key, current));
      } else {
        r := ReadEntry(s, lines, i, key, current);
      }
    }
  }

  /** No package name is declared twice among the first i lines. */
  ghost predicate NamesDistinct(lines: seq<string>, i: nat)
    requires i <= |lines|
  {
    forall a, b :: 0 <= a < b < i && IsNameLine(lines[a]) && IsNameLine(lines[b]) ==>
      NameOf(lines[a]) != NameOf(lines[b])
  }

  /** Lines 0 to i - 1 all have the shape a read checks. */
  ghost predicate ShapedUpTo(lines: seq<string>, i: nat)
    requires i <= |lines|
  {
    forall k :: 0 <= k < i ==> LineShape(lines, k)
  }

  /** A stream reads without error exactly when every line passes its checks; the checks of
      line i come down to the shape of the lines and to the names declared being distinct. */
  lemma {:induction false} LinesOk(lines: seq<string>, i: nat)
    requires i <= |lines|
    ensures (forall k :: 0 <= k < i ==> LineOk(lines, k)) <==> ShapedUpTo(lines, i) && NamesDistinct(lines, i)
  {
    if i > 0 {
      var j := i - 1;
      LinesOk(lines, j);
      AllOkSnoc(lines, j);
      ShapedSnoc(lines, j);
      NamesDistinctStep(lines, j);
    }
  }

  /** Every one of the first i + 1 lines passes exactly when the first i and line i do. */
  lemma AllOkSnoc(lines: seq<string>, i: nat)
    requires i < |lines|
    ensures (forall k :: 0 <= k < i + 1 ==> LineOk(lines, k)) <==>
            (forall k :: 0 <= k < i ==> LineOk(lines, k)) && LineShape(lines, i) &&
            (IsNameLine(lines[i]) ==> NameOf(lines[i]) !in NamesUpTo(lines, i))
  {
    assert LineOk(lines, i) <==> LineShape(lines, i) &&
                                 (IsNameLine(lines[i]) ==> NameOf(lines[i]) !in NamesUpTo(lines, i));
  }

  /** The first i + 1 lines have their shape exactly when the first i and line i do. */
  lemma ShapedSnoc(lines: seq<string>, i: nat)
    requires i < |lines|
    ensures ShapedUpTo(lines, i + 1) <==> ShapedUpTo(lines, i) && LineShape(lines, i)
  {
  }

  /** The names of the first i + 1 lines are distinct exactly when those of the first i are
      and line i declares no name among them. */
  lemma NamesDistinctStep(lines: seq<string>, i: nat)
    requires i < |lines|
    ensures NamesDistinct(lines, i + 1) <==>
              NamesDistinct(lines, i) && (IsNameLine(lines[i]) ==> NameOf(lines[i]) !in NamesUpTo(lines, i))
  {
    if IsNameLine(lines[i]) && NameOf(lines[i]) in NamesUpTo(lines, i) {
      var a :| 0 <= a < i && IsNameLine(lines[a]) && NameOf(lines[a]) == NameOf(lines[i]);
      assert !NamesDistinct(lines, i + 1);
    }
    if NamesDistinct(lines, i) && (IsNameLine(lines[i]) ==> NameOf(lines[i]) !in NamesUpTo(lines, i)) {
      forall a | 0 <= a < i && IsNameLine(lines[a]) && IsNameLine(lines[i])
        ensures NameOf(lines[a]) != NameOf(lines[i])
      {
        assert NameOf(lines[a]) in NamesUpTo(lines, i);
      }
    }
  }

  /** Everything the reading loop knows after the first i lines: the key, the current package,
      the store the lines describe, and that every line so far passed its checks. */
  ghost predicate ReadUpTo(lines: seq<string>, i: nat, key: string, current: Option<string>,
                           packages: map<string, Package>, aliases: map<string, string>)
    requires i <= |lines|
  {
    key == KeyAfter(lines, i) && current == CurrentAfter(lines, i) &&
    packages == PackagesAfter(lines, i) && aliases == AliasesAfter(lines, i) &&
    forall k :: 0 <= k < i ==> LineOk(lines, k)
  }

  /** One pass of the reading loop: line i is read into the store. */
  method ReadNext(s: PacmanInstalledSet, lines: seq<string>, i: nat, key: string,
                  current: Option<string>)
    returns (r: Result<(string, Option<string>), Exception>)
    requires i < |lines|
    requires s.Valid() && s.UnknownsComplete() && s.Table().TargetsInstalled()
    requires ReadUpTo(lines, i, key, current, s.packages, s.aliases)
    modifies s`packages, s`unknowns, s`aliases
    ensures s.Valid() && s.UnknownsComplete() && s.Table().TargetsInstalled()
    ensures r.Err? ==> r.error.ValueError? || r.error.KeyError?
    ensures r.Err? ==> !LineOk(lines, i)
    ensures r.Ok? ==> ReadUpTo(lines, i + 1, r.value.0, r.value.1, s.packages, s.aliases)
  {
    r := ReadLine(s, lines, i, key, current);
  }

  /** The first i + 1 lines are the first i and line i. */
  lemma PrefixSnoc(lines: seq<string>, i: nat)
    requires i < |lines|
    ensures lines[..i + 1] == lines[..i] + [lines[i]]
  {
  }

  /** The loop of `from_pacman_qi_stream`: every line passes through the debugging buffer and
      is read in turn; the first line that fails its checks ends the loop with its error. */
  method ReadLines(s: PacmanInstalledSet, debug: DebuggedStream, lines: seq<string>)
    returns (r: Result<(), Exception>)
    requires s.Valid() && s.UnknownsComplete() && s.Table().TargetsInstalled()
    requires s.packages == map[] && s.aliases == map[] && debug.Valid() && debug.consumed == []
    modifies s`packages, s`unknowns, s`aliases, debug
    ensures s.Valid() && s.UnknownsComplete() && s.Table().TargetsInstalled()
    ensures s.retainedSetCache == old(s.retainedSetCache)
    ensures r.Err? ==> r.error.ValueError? || r.error.KeyError?
    ensures r.Ok? <==> ShapedUpTo(lines, |lines|) && NamesDistinct(lines, |lines|)
    ensures r.Ok? ==>
              debug.Valid() && debug.consumed == lines &&
              s.packages == PackagesAfter(lines, |lines|) && s.aliases == AliasesAfter(lines, |lines|)
  {
    var current: Option<string> := None;
    var key := "";
    assert PackagesAfter(lines, 0) == map[];
    for i := 0 to |lines|
      invariant debug.Valid() && debug.consumed == lines[..i]
      invariant s.Valid() && s.UnknownsComplete() && s.Table().TargetsInstalled()
      invariant s.retainedSetCache == old(s.retainedSetCache)
      invariant ReadUpTo(lines, i, key, current, s.packages, s.aliases)
    {
      debug.Pass(lines[i]);
      PrefixSnoc(lines, i);
      var step := ReadNext(s, lines, i, key, current);
      if step.Err? {
        LinesOk(lines, |lines|);
        return Err(step.error);
      }
      key, current := step.value.0, step.value.1;
    }
    assert lines[..|lines|] == lines;
    LinesOk(lines, |lines|);
    return Ok(());
  }

  /** The end of `from_pacman_qi_stream`: finalise the store the lines were read into. */
  method FinishReading(s: PacmanInstalledSet)
    requires s.Valid() && s.UnknownsComplete() && s.Table().TargetsInstalled()
    requires s.retainedSetCache == map[]
    modifies s`packages, s`revdepCache
    ensures s.Valid() && s.UnknownsComplete() && s.Table().TargetsInstalled()
    ensures s.RevdepExact() && s.DepsResolved() && s.CacheSound()
    ensures FinalisedFrom(s.Table(), old(s.packages), s.packages)
  {
    TargetsInstalledChainless(s.Table());
    s.FinaliseDependencySets();
  }

  /** A valid store whose unknowns are complete holds exactly the dependency names that are
      neither packages nor aliases as unknowns. */
  lemma UnknownsExact(packages: map<string, Package>, unknowns: set<string>, aliases: map<string, string>)
    requires ValidState(packages, unknowns, aliases) && UnknownsCover(packages, unknowns, aliases)
    ensures unknowns == ReferencedBy(packages) - packages.Keys - aliases.Keys
  {
  }

  /** The packages after i lines are exactly the names the `Name` lines among them declare. */
  lemma PackagesAfterNames(lines: seq<string>, i: nat)
    requires i <= |lines|
    ensures PackagesAfter(lines, i).Keys == NamesUpTo(lines, i)
  {
    EffectsDeclare(lines, i);
  }

  /** The reading half of `from_pacman_qi_stream`: a fresh store that every line has been
      read into. It fails exactly when some line fails its checks, which comes down to the
      shape of the lines and to no package name being declared twice; a successful read
      leaves the packages and aliases the lines describe, and as unknowns the dependency names
      that are neither packages nor aliases. */
  method ReadInstalled(lines: seq<string>) returns (r: Result<PacmanInstalledSet, Exception>)
    ensures r.Err? ==> r.error.ValueError? || r.error.KeyError?
    ensures r.Ok? <==> ShapedUpTo(lines, |lines|) && NamesDistinct(lines, |lines|)
    ensures r.Ok? ==> fresh(r.value)
    ensures r.Ok? ==> r.value.Valid() && r.value.UnknownsComplete() && r.value.Table().TargetsInstalled()
    ensures r.Ok? ==> r.value.retainedSetCache == map[]
    ensures r.Ok? ==> r.value.packages == PackagesAfter(lines, |lines|)
    ensures r.Ok? ==> r.value.aliases == AliasesAfter(lines, |lines|)
    ensures r.Ok? ==> r.value.unknowns == ReferencedBy(r.value.packages) - r.value.packages.Keys - r.value.aliases.Keys
  {
    var s := new PacmanInstalledSet();
    var debug := new DebuggedStream(10);
    var read := ReadLines(s, debug, lines);
    if read.Err? {
      return Err(read.error);
    }
    UnknownsExact(s.packages, s.unknowns, s.aliases);
    return Ok(s);
  }

  /** `from_pacman_qi_stream`: read every line, then finalise the dependency sets. The result
      fails exactly when the read does; a successful one holds the aliases and unknowns of the
      read, and every package the lines declare, as they describe it, finalised (the declared
      names are `NamesUpTo(lines, |lines|)`, by `PackagesAfterNames`). */
  method FromPacmanQiStream(lines: seq<string>) returns (r: Result<PacmanInstalledSet, Exception>)
    ensures r.Err? ==> r.error.ValueError? || r.error.KeyError?
    ensures r.Ok? <==> ShapedUpTo(lines, |lines|) && NamesDistinct(lines, |lines|)
    ensures r.Ok? ==>
              var s := r.value;
              fresh(s) && s.Valid() && s.UnknownsComplete() && s.Table().TargetsInstalled() &&
              s.RevdepExact() && s.DepsResolved() && s.CacheSound() &&
              s.aliases == AliasesAfter(lines, |lines|) &&
              s.unknowns == ReferencedBy(PackagesAfter(lines, |lines|)) - PackagesAfter(lines, |lines|).Keys -
                            AliasesAfter(lines, |lines|).Keys &&
              FinalisedFrom(s.Table(), PackagesAfter(lines, |lines|), s.packages)
  {
    var read := ReadInstalled(lines);
    if read.Err? {
      return Err(read.error);
    }
    var s := read.value;
    FinishReading(s);
    return Ok(s);
  }

  /** After a successful read, the dependencies of a package are exactly the resolved names of
      the effects of its `Depends On` lines. */
  lemma FinalDependencies(t: AliasTable, lines: seq<string>, packages: map<string, Package>,
                          p: string, d: string)
    requires FinalisedFrom(t, PackagesAfter(lines, |lines|), packages) && p in packages
    ensures d in packages[p].dependencies <==>
              exists k, n :: 0 <= k < |lines| && EffectOf(lines, k).AddDeps? && EffectOf(lines, k).package == p &&
                             n in EffectOf(lines, k).names && t.Resolve(n) == d
  {
    var es := Effects(lines)[..|lines|];
    var before := PackagesAfter(lines, |lines|);
    assert es == Effects(lines);
    if d in packages[p].dependencies {
      var n :| n in before[p].dependencies && t.Resolve(n) == d;
      DepsOfMembers(es, p, n);
      var k :| 0 <= k < |es| && es[k].AddDeps? && es[k].package == p && n in es[k].names;
      assert EffectOf(lines, k) == es[k];
    }
    forall k, n | 0 <= k < |lines| && EffectOf(lines, k).AddDeps? && EffectOf(lines, k).package == p &&
                  n in EffectOf(lines, k).names && t.Resolve(n) == d
      ensures d in packages[p].dependencies
    {
      DepsOfMembers(es, p, n);
      assert es[k] == EffectOf(lines, k);
    }
  }
}
