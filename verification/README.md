# snippets: a verified model

This project models, in Dafny, the core of a collection of small programs.

The main piece is the package-graph engine of `arch-linux/pacman_graph.py`. It covers:

- reading the output of `pacman -Qi` into a store of installed packages;
- recording dependencies, optional dependencies and the aliases a package provides;
- resolving alias names, and finalising the dependency sets into resolved form with a
  reverse-dependency index;
- computing the set of packages a selection retains, with the cycle-aware cached recursion;
- three size measures over a selection: retained, adjusted (shared dependencies weighted by
  the fraction of their dependants that are retained) and uniquely retained (a fixed point
  guarded by the reverse-dependency index).

Beside it, the model covers these smaller programs:

- `shq.py`: quoting a string for a POSIX shell, "perfect" and "optimal".
- `net.py`: formatting and parsing dotted-quad IPv4 addresses, and CIDR block bounds.
- `obfuscation/hw.py` and `obfuscation/hw.c`: a 2/3-bit prefix-code decoder into a palette of
  text pieces, once as a string builder and once writing a C buffer in place.
- `bubblesort.c`: in-place bubble sort.
- `generator_cache.py`: a Fibonacci generator, and an append-only cache that makes an iterator
  indexable.
- `mcarl.c`: a binary search for the top lattice row inside a circle, and the loop that adds
  those rows up.
- `rangesum.py`: a closed-form sum of a `range`.

Layout, one module per file:

- `wrappers.dfy`: `Option`, `Result` and the Python exceptions the code raises.
- `decimal.dfy`, `pystr.dfy` and `bits.dfy`: the Python built-ins the sources lean on.
  These are `str(n)`, `int(s)` on digits, `strip`, `split`, `split(sep)`, `index`, `join` and
  powers of two.
- `pacman_values.dfy`: `_units`, `parse_size`, `PacmanPackage` and
  `strip_version_requirements`.
- `pacman_closure.dfy`: the graph theory behind the set computations. It defines the least
  closed superset of a start set under a guarded growth rule, and sums over sets.
- `pacman_graph.dfy`: the class `PacmanInstalledSet` and its operations.
- `pacman_parser.dfy`: `DebuggedStream` and `from_pacman_qi_stream`. Each line of `pacman -Qi`
  output has an effect on the store: it declares a package, gives the current package
  dependencies, an optional dependency, a size or aliases, or does nothing. The store the
  first i lines describe (`PackagesAfter`, `AliasesAfter`) is built from those effects.
  The reading methods are proved to fail exactly when a line fails the checks of the loop,
  and otherwise to leave exactly that store.
- `shq.dfy`, `net.dfy`, `hw_py.dfy`, `hw_c.dfy`, `bubblesort.dfy`, `generator_cache.dfy`,
  `mcarl.dfy` and `rangesum.dfy`: one file per smaller program.

Three behaviours of the code that the model keeps as they are:

- **`Name` lines.** The reader does not ask for a blank line before a `Name` line
  (arch-linux/pacman_graph.py:428-431). A second `Name` in the same record starts a new
  package.
- **Version requirements.** `strip_version_requirements` cuts at the first `>` if there is
  one, else at the first `<`, else at the first `=` (arch-linux/pacman_graph.py:133-143). It
  does not cut at the earliest of the three.
- **Optional dependencies.** An `Optional Deps` value without a `:` is used whole
  (arch-linux/pacman_graph.py:445-448). It is neither stripped nor cut at a version
  requirement.

## Model

| member | source | states |
|---|---|---|
| PacmanValues.ParseSize | arch-linux/pacman_graph.py:82-88 | succeeds exactly when the text splits into two words, a decimal number and a unit of the table; the result is the truncated product; a wrong word count or a bad number raises ValueError, and otherwise an unknown unit raises KeyError naming it |
| PacmanValues.BytesOf | arch-linux/pacman_graph.py:87-88 | `int(num * multiplier)` is the whole number of bytes at or below the product and within 1 of it |
| PacmanValues.DecimalValue | arch-linux/pacman_graph.py:87 | a plain decimal numeral (digits with at most one point) reads as a non-negative value, and a plain digit string has its integer value |
| PacmanValues.MiBBytes | arch-linux/pacman_graph.py:35-41 | an example: one MiB of the unit table is 2^20 bytes, a step of ParseSizeOneMiB |
| PacmanValues.KiBBytes | arch-linux/pacman_graph.py:35-41 | an example: 512 KiB of the unit table is 2^19 bytes, a step of ParseSizeHalfMiB |
| PacmanValues.ParseSizeOfFields | arch-linux/pacman_graph.py:86-88 | a number followed by a known unit parses to the truncated product |
| PacmanValues.ParseSizeOneMiB | arch-linux/pacman_graph.py:82-88 | "1.00 MiB" parses to 1048576 |
| PacmanValues.ParseSizeHalfMiB | arch-linux/pacman_graph.py:82-88 | "512.00 KiB" parses to 524288 |
| PacmanValues.StripVersionRequirements | arch-linux/pacman_graph.py:133-143 | the result is a prefix of the name that ends just before the first `>`; failing that the first `<`; failing that the first `=`; otherwise it is the whole name |
| PacmanValues.NewPackage | arch-linux/pacman_graph.py:119-123 | a new package has its name, no dependencies and no size |
| PyStr.Strip | arch-linux/pacman_graph.py:416 | the stripped value neither starts nor ends with whitespace |
| PyStr.StripKeepsMiddle | arch-linux/pacman_graph.py:416 | `strip` removes only leading and trailing whitespace and keeps a contiguous piece of the line |
| PyStr.Words | arch-linux/pacman_graph.py:435 | every word of `split()` is non-empty and has no whitespace |
| PyStr.WordsKeepText | arch-linux/pacman_graph.py:435 | the words, in order, hold exactly the non-whitespace characters of the value |
| PyStr.WordsOfTwo | arch-linux/pacman_graph.py:86 | two words joined by a space split back into those two words |
| PyStr.IndexOf | arch-linux/pacman_graph.py:138 | `index` gives the first occurrence, and fails exactly when the character is absent |
| PyStr.SplitOn | net.py:10 | the pieces of `split('.')` hold no dot and join back into the input |
| PyStr.SplitJoin | net.py:10 | splitting a join of dot-free pieces gives the pieces back |
| DependencyClosure.SetLookup | arch-linux/pacman_graph.py:235 | a `defaultdict(set)` lookup gives the stored set, or the empty set for a missing key |
| DependencyClosure.Saturate | arch-linux/pacman_graph.py:357-374 | contains the start set and is closed under the guarded growth rule |
| DependencyClosure.SaturateLeast | arch-linux/pacman_graph.py:357-374 | it lies inside every closed superset of the start set, so it is the least one |
| DependencyClosure.GrowthStep | arch-linux/pacman_graph.py:362 | a pass that adds something brings the set strictly closer to the finite universe of names, which bounds the passes |
| DependencyClosure.SaturateWithinUniverse | arch-linux/pacman_graph.py:368-374 | names are only added from dependency sets |
| DependencyClosure.SaturateMonotone | arch-linux/pacman_graph.py:357-374 | a larger start set gives a larger result |
| DependencyClosure.SaturateHasReason | arch-linux/pacman_graph.py:368-374 | a name added beyond the start set is a dependency of a member, and all its reverse dependencies are members |
| DependencyClosure.GuardedWithinReach | arch-linux/pacman_graph.py:357-374 | the uniquely retained set lies inside the retained set of the same start |
| DependencyClosure.ClosedUnderEdges | arch-linux/pacman_graph.py:272-281 | a closed set holds every dependency of each member |
| DependencyClosure.ReachEdge | arch-linux/pacman_graph.py:276-280 | what a dependency retains, its dependant retains too |
| DependencyClosure.ReachUnion | arch-linux/pacman_graph.py:298-303 | the retained set of a union is the union of the retained sets |
| DependencyClosure.SumOverUnion | arch-linux/pacman_graph.py:309-311 | sizes summed over disjoint sets add up |
| PacmanGraph.AliasTable.Resolve | arch-linux/pacman_graph.py:221-229 | a package or a recorded unknown resolves to itself; failing that, an alias resolves to its target; any other name resolves to itself |
| PacmanGraph.AliasTable.ResolveAll | arch-linux/pacman_graph.py:327 | the set holds exactly the resolved names of the input |
| PacmanGraph.ResolveIdempotent | arch-linux/pacman_graph.py:221-229 | without alias chains, resolving twice is resolving once |
| PacmanGraph.TargetsInstalledChainless | arch-linux/pacman_graph.py:456-461 | aliases whose targets are installed packages do not chain |
| PacmanGraph.ResolveAllIdempotent | arch-linux/pacman_graph.py:327 | without alias chains, the resolved names are fixed points and resolving the set again changes nothing |
| PacmanGraph.FinalisedPackage | arch-linux/pacman_graph.py:237-247 | the new dependency set is the resolved image of the old one; the optional set is the resolved image restricted to installed packages; name and size are kept |
| PacmanGraph.AddRevdeps | arch-linux/pacman_graph.py:249-251 | `q` is in the index under `d` after the step exactly when it was before, or when `q` is the package and `d` one of its dependencies |
| PacmanGraph.FinaliseAll | arch-linux/pacman_graph.py:237-251 | every package is finalised, and `q` is indexed under `d` exactly when `d` is a finalised dependency of `q` |
| PacmanGraph.FinaliseKeepsUnknowns | arch-linux/pacman_graph.py:231-251 | recorded unknowns remain dependency names after finalisation |
| PacmanGraph.FinaliseResolves | arch-linux/pacman_graph.py:237-240 | without alias chains, every finalised dependency name resolves to itself |
| PacmanGraph.FinaliseKeepsUnknownsComplete | arch-linux/pacman_graph.py:231-251 | with alias targets installed, a finalised dependency that is neither a package nor an alias was already an unknown |
| PacmanGraph.FinaliseKeepsState | arch-linux/pacman_graph.py:231-251 | finalisation keeps the store's invariant and, without alias chains, leaves all dependencies resolved |
| PacmanGraph.ClosedFromDeps | arch-linux/pacman_graph.py:272-281 | a set of packages that holds its members' dependencies is closed |
| PacmanGraph.DepsFromClosed | arch-linux/pacman_graph.py:272-281 | a closed set of packages holds its members' dependencies |
| PacmanGraph.SetToSeq | arch-linux/pacman_graph.py:365 | `queue.extend(s)` queues exactly the members of the set |
| PacmanGraph.PortionBounds | arch-linux/pacman_graph.py:334-338 | a size weighted by a fraction of at most one lies between zero and the size |
| PacmanGraph.ShareOf | arch-linux/pacman_graph.py:332-338 | a retained dependency contributes its size times the fraction of its reverse dependencies that are retained |
| PacmanGraph.RevdepShareBounds | arch-linux/pacman_graph.py:332-338 | a share is never negative and never more than the package's own size |
| PacmanGraph.AdjustedTotalBounds | arch-linux/pacman_graph.py:328-340 | the adjusted size lies between the start packages' own sizes and the retained size |
| PacmanGraph.AdjustedFloor | arch-linux/pacman_graph.py:340 | the truncated sum is the truncation of the adjusted size and keeps both bounds |
| PacmanGraph.AdjustedSizeOfEverything | arch-linux/pacman_graph.py:332-340 | started from every package, the adjusted size is the plain sum of own sizes |
| PacmanGraph.PacmanInstalledSet.constructor | arch-linux/pacman_graph.py:165-170 | an empty store, with no index and an empty cache |
| PacmanGraph.PacmanInstalledSet.ResolveAlias | arch-linux/pacman_graph.py:221-229 | a package or an unknown wins over an alias of the same name; an alias gives its target; any other name is returned unchanged |
| PacmanGraph.PacmanInstalledSet.AddPackage | arch-linux/pacman_graph.py:172-181 | a duplicate raises ValueError and changes nothing; otherwise the new empty package is stored and the name leaves the unknowns; the store invariant and the completeness of the unknowns are kept |
| PacmanGraph.PacmanInstalledSet.AddDependency | arch-linux/pacman_graph.py:183-195 | raises ValueError for a package never added; otherwise adds the dependency, and records it as unknown exactly when it is neither a package nor an alias |
| PacmanGraph.PacmanInstalledSet.AddOptionalDependency | arch-linux/pacman_graph.py:197-208 | raises ValueError for a package never added; otherwise only that package's optional set grows |
| PacmanGraph.PacmanInstalledSet.AddAlias | arch-linux/pacman_graph.py:210-219 | the alias points at the target and leaves the unknowns |
| PacmanGraph.PacmanInstalledSet.GetItem | arch-linux/pacman_graph.py:253-256 | a package name gives its package; an alias that is not a package gives its target's package, or KeyError for the target; anything else raises KeyError |
| PacmanGraph.PacmanInstalledSet.GetItemResolves | arch-linux/pacman_graph.py:253-256 | item lookup agrees with looking up the resolved name |
| PacmanGraph.PacmanInstalledSet.FinaliseDependencySets | arch-linux/pacman_graph.py:231-251 | every package is replaced by its finalised form; the index is exactly the inverse of the dependency relation; without alias chains all dependencies end resolved |
| PacmanGraph.PacmanInstalledSet.RetainedSetInternal | arch-linux/pacman_graph.py:258-291 | returns a part of the closure of the resolved name that contains it and is closed up to the returned cycle set; the cycle set lies among the ancestors; with no cycle it is the whole closure; a missing package raises KeyError for a name in the closure; every cache entry stays the closure of its resolved key; earlier entries are kept unchanged; an alias whose target is cached gets its own entry; with no cycle the name or its resolution is cached; no ancestor gets a new entry, and the resolved name gets one only when no cycle was cut |
| PacmanGraph.PacmanInstalledSet.RetainedFromDeps | arch-linux/pacman_graph.py:272-291 | the same for an installed package p: earlier cache entries are kept unchanged, p is cached when the cycle set is empty, a new entry for p appears only then, and no ancestor gets a new entry |
| PacmanGraph.PacmanInstalledSet.WalkDependencies | arch-linux/pacman_graph.py:272-283 | the merged retained set contains p, lies in its closure and is closed up to the merged cycle set, which lies among the ancestors and p; KeyError for a missing package in the closure; earlier cache entries are kept and neither p nor an ancestor gets a new one |
| PacmanGraph.PacmanInstalledSet.RetainedOfName | arch-linux/pacman_graph.py:298-299 | one name's term of the union: Ok exactly when the closure of the resolved name is installed, and then that closure; otherwise KeyError for a missing name in it |
| PacmanGraph.PacmanInstalledSet.RetainedSet | arch-linux/pacman_graph.py:293-303 | succeeds exactly when everything reachable from the resolved names is installed, and then returns that reachable set; otherwise KeyError names a reachable missing package |
| PacmanGraph.PacmanInstalledSet.SizeTotal | arch-linux/pacman_graph.py:309-311 | the sum of `size or 0` over the given packages |
| PacmanGraph.PacmanInstalledSet.RetainedSize | arch-linux/pacman_graph.py:305-311 | the sum of own sizes over the retained set, with the same error as the retained set |
| PacmanGraph.PacmanInstalledSet.StartSizeTotal | arch-linux/pacman_graph.py:328 | sums the start packages' own sizes, or raises KeyError for one that is not installed |
| PacmanGraph.PacmanInstalledSet.ShareTotal | arch-linux/pacman_graph.py:332-338 | sums the shares of the retained packages outside the start set; ZeroDivisionError exactly when one of them has no reverse dependency |
| PacmanGraph.PacmanInstalledSet.AdjustedSize | arch-linux/pacman_graph.py:313-340 | ValueError when the sets are not finalised; otherwise the truncated adjusted size between the start's own size and the retained size; KeyError for an uninstalled retained name; ZeroDivisionError only when the whole retained set is installed and a retained package outside the start has no reverse dependency |
| PacmanGraph.PacmanInstalledSet.AdjustedFrom | arch-linux/pacman_graph.py:327-340 | the same, once the start names are resolved |
| PacmanGraph.PacmanInstalledSet.RetainedHaveRevdeps | arch-linux/pacman_graph.py:332-336 | with the index built by finalisation, every retained package beyond the start has a reverse dependency, so the weight never divides by zero |
| PacmanGraph.PacmanInstalledSet.UniquePass | arch-linux/pacman_graph.py:365-374 | one pass only adds names inside the guarded closure; a pass that adds nothing has reached a closed set of installed packages |
| PacmanGraph.PacmanInstalledSet.UniqueFixpoint | arch-linux/pacman_graph.py:357-374 | passes run until one adds nothing and end in a closed set between the start and the guarded closure |
| PacmanGraph.PacmanInstalledSet.UniquelyRetainedSize | arch-linux/pacman_graph.py:342-385 | ValueError when the sets are not finalised; otherwise the own sizes summed over the least guarded closure of the resolved start, or KeyError for a missing package in it |
| PacmanParser.RecordKeepsLast | arch-linux/pacman_graph.py:71-76 | a buffer step bounded by `num_lines` keeps exactly the last `num_lines` lines seen |
| PacmanParser.RecordIgnoresNumLines | arch-linux/pacman_graph.py:71-76 | as written, a buffer asked for three lines still holds five after five lines |
| PacmanParser.DebuggedStream.constructor | arch-linux/pacman_graph.py:54-57 | an empty buffer with the given size |
| PacmanParser.DebuggedStream.Pass | arch-linux/pacman_graph.py:71-76 | after each line the buffer holds the last `num_lines` lines passed on |
| PacmanParser.StrippedNames | arch-linux/pacman_graph.py:435-439 | a name is in the set exactly when some word of the value, stripped of its version requirement, gives it |
| PacmanParser.AliasMap | arch-linux/pacman_graph.py:459-461 | every provided name, and no other, maps to the providing package |
| PacmanParser.OptionalName | arch-linux/pacman_graph.py:445-448 | a value with a `:` gives the text before its first `:`, stripped of blanks and then of its version requirement; a value without a `:` is taken whole |
| PacmanParser.DeclaredMembers | arch-linux/pacman_graph.py:428-430 | a name is declared exactly when some line declares it |
| PacmanParser.DepsOfMembers | arch-linux/pacman_graph.py:432-439 | the dependencies of a package are exactly the stripped names its `Depends On` lines give |
| PacmanParser.OptionalsOfMembers | arch-linux/pacman_graph.py:440-449 | the optional dependencies of a package are exactly the names its `Optional Deps` lines give |
| PacmanParser.SizeOfSet | arch-linux/pacman_graph.py:450-455 | a package has a size exactly when some `Installed Size` line of it sets one |
| PacmanParser.SizeOfLast | arch-linux/pacman_graph.py:450-455 | the size is the one the last such line sets; a later `Installed Size` overwrites an earlier one |
| PacmanParser.AliasesOfSet | arch-linux/pacman_graph.py:456-461 | a name is an alias exactly when some `Provides` line gives it |
| PacmanParser.AliasesOfLast | arch-linux/pacman_graph.py:456-461 | an alias names the package of the last `Provides` line that gives it |
| PacmanParser.OrderedEmpty | arch-linux/pacman_graph.py:432-458 | when every field comes after the `Name` of its package, a name never declared has no dependencies, optional dependencies or size |
| PacmanParser.CurrentDeclared | arch-linux/pacman_graph.py:428-429 | the current package is always a name an earlier `Name` line declared |
| PacmanParser.EffectDeclares | arch-linux/pacman_graph.py:428-461 | a line declares a name exactly when it is a `Name` line, and a field line applies to the current package |
| PacmanParser.EffectsDeclare | arch-linux/pacman_graph.py:402-461 | the names the lines declare are those of their `Name` lines, and every field applies to a package an earlier line declared |
| PacmanParser.PackagesAfterNames | arch-linux/pacman_graph.py:428-430 | the packages after i lines are exactly the names the `Name` lines among them declare |
| PacmanParser.StoreQuiet | arch-linux/pacman_graph.py:408-422 | a line without effect leaves the described packages and aliases |
| PacmanParser.StoreDeclare | arch-linux/pacman_graph.py:428-430 | declaring a name not declared before adds an empty package under it and changes nothing else |
| PacmanParser.StoreDeps | arch-linux/pacman_graph.py:432-439 | a `Depends On` line adds its names to its package's dependencies and changes nothing else |
| PacmanParser.StoreOptional | arch-linux/pacman_graph.py:440-449 | an `Optional Deps` line adds its name to its package's optional dependencies and changes nothing else |
| PacmanParser.StoreSize | arch-linux/pacman_graph.py:450-455 | an `Installed Size` line sets its package's size and changes nothing else |
| PacmanParser.StoreProvides | arch-linux/pacman_graph.py:456-461 | a `Provides` line leaves the packages and makes each of its names an alias of its package |
| PacmanParser.StoreField | arch-linux/pacman_graph.py:432-461 | a field line moves the described store exactly as the field's handler moves the live store |
| PacmanParser.AddDependencies | arch-linux/pacman_graph.py:435-439 | the current package gains exactly the stripped words as dependencies and no other package changes; the new unknowns are exactly those words that are neither packages nor aliases |
| PacmanParser.SetInstalledSize | arch-linux/pacman_graph.py:453-455 | the current package's size becomes the parsed value, and nothing else changes |
| PacmanParser.AddAliases | arch-linux/pacman_graph.py:459-461 | each stripped word becomes an alias of the current package, over any earlier target, and the aliases gain nothing else; those words stop being unknowns |
| PacmanParser.ApplyField | arch-linux/pacman_graph.py:432-461 | fails exactly when an `Installed Size` value does not parse, with the parse error and nothing changed; otherwise the store changes exactly as the field's handler says, and the unknowns as the handler leaves them |
| PacmanParser.ApplyEntry | arch-linux/pacman_graph.py:428-461 | `Name` succeeds exactly when the stripped value is not a package yet, then adds an empty package and makes it current; a package field succeeds exactly when a package is current (and a size parses), then applies the handler; any other key returns the current package and changes nothing; only ValueError or KeyError is raised |
| PacmanParser.EntryIs | arch-linux/pacman_graph.py:416-430 | a long line that is not a skipped `None` carries a value for its own key, or for `Optional Deps` as a continuation; it is a `Name` line exactly when that key is `Name` |
| PacmanParser.QuietLine | arch-linux/pacman_graph.py:408-422 | a blank short line, or a key line whose value is `None`, changes neither packages nor aliases |
| PacmanParser.ReadEntry | arch-linux/pacman_graph.py:416-461 | a line that carries a value succeeds exactly when it passes its checks, and then moves the store to what the first i + 1 lines describe |
| PacmanParser.ReadLine | arch-linux/pacman_graph.py:408-461 | one iteration: it fails exactly when line i fails its checks (a non-blank short line, a continuation outside `Optional Deps`, a field before any `Name`, an `Installed Size` that does not parse, or a `Name` already declared), and otherwise leaves the key, the current package and the store as the first i + 1 lines describe them |
| PacmanParser.NamesDistinctStep | arch-linux/pacman_graph.py:428-430 | the names of the first i + 1 lines are distinct exactly when those of the first i are and line i declares no name among them |
| PacmanParser.LinesOk | arch-linux/pacman_graph.py:402-461 | every line passes its checks exactly when every line has a readable shape and no name is declared twice |
| PacmanParser.ReadNext | arch-linux/pacman_graph.py:402-461 | a failing line is one that fails its checks, and a passing one extends what the loop knows by one line |
| PacmanParser.ReadLines | arch-linux/pacman_graph.py:395-461 | the loop fails exactly when some line is badly shaped or a name repeats; on success every line went through the buffer and the store is exactly the one the lines describe |
| PacmanParser.FinishReading | arch-linux/pacman_graph.py:464 | finalisation leaves an exact reverse-dependency index, resolved dependencies and a sound cache, and every package finalised from the one read |
| PacmanParser.ReadInstalled | arch-linux/pacman_graph.py:392-461 | a fresh store that fails exactly as the loop does; on success it holds the packages and aliases the lines describe, and as unknowns exactly the dependency names that are neither packages nor aliases |
| PacmanParser.FromPacmanQiStream | arch-linux/pacman_graph.py:388-465 | only ValueError or KeyError is raised, and it fails exactly when some line is badly shaped or a name repeats; on success the aliases are those the `Provides` lines give, the unknowns exactly the dependency names that are neither packages nor aliases, and every package the lines describe is finalised |
| PacmanParser.FinalDependencies | arch-linux/pacman_graph.py:435-439 | after a successful read and finalisation, d is a dependency of p exactly when some `Depends On` line of p gives a name that resolves to d |
| ShellQuote.QuotePerfect | shq.py:2-3 | the output is wrapped in single quotes |
| ShellQuote.EscapeQuotesLength | shq.py:3 | each single quote grows by three characters |
| ShellQuote.QuotePerfectLength | shq.py:2-3 | the length is the input's length plus 2 plus 3 per single quote |
| ShellQuote.ScanEscaped | shq.py:3 | inside an open quote, the escaped text reads back as the original text |
| ShellQuote.QuotePerfectRoundTrip | shq.py:2-3 | the shell reads the output back as exactly the input |
| ShellQuote.KeywordsLowercase | shq.py:6-8 | every keyword is a lower-case word |
| ShellQuote.LowercasePlain | shq.py:5 | no lower-case letter is special |
| ShellQuote.BackslashedWord | shq.py:13-14 | a keyword behind a backslash reads back as the keyword |
| ShellQuote.InsertedMarkFront | shq.py:14 | a leading backslash is an inserted character |
| ShellQuote.SpecialAhead | shq.py:29-34 | true exactly when a special character other than `'` comes before the next `'` |
| ShellQuote.PlainPrefix | shq.py:23 | a prefix stays free of special characters exactly while each added character is not special |
| ShellQuote.CloseAndEscapeQuote | shq.py:18-22 | an input quote closes any open quote and is emitted as `\'`, read back as one `'` |
| ShellQuote.OpenQuote | shq.py:35-37 | a special character that opens a quoted run is read back as itself, inside the run |
| ShellQuote.EscapeSpecial | shq.py:38-39 | a special character other than newline behind a backslash is read back as itself |
| ShellQuote.Literal | shq.py:40 | a character inside a run, or one that is not special, is read back as itself |
| ShellQuote.Emit | shq.py:21-22 | an inserted `'` or `\` keeps the output an insertion into the input |
| ShellQuote.QuoteOptimal | shq.py:10-43 | the empty string gives `''`; a keyword gets a leading backslash; a plain non-keyword is unchanged; every input character is emitted in order with only `'` and `\` inserted; the shell reads the output back as the input |
| Decimal.ShowNat | net.py:7 | `str(n)` is a non-empty digit string without a leading zero |
| Decimal.ShowNatRoundTrip | net.py:6-10 | reading back `str(n)` gives `n` |
| Net.Octets | net.py:7 | four bytes, most significant first, that make up the number |
| Net.ShowAll | net.py:7 | each byte rendered in decimal |
| Net.FormatIp | net.py:6-7 | succeeds exactly for a 32-bit number, and otherwise raises `struct.error` |
| Net.ParseInt | net.py:10 | `int` reads a digit string as its value |
| Net.ParseAll | net.py:10 | succeeds exactly when every piece is a number, giving them in order |
| Net.PackOctets | net.py:10 | succeeds exactly for four values in 0..255, giving the number they make |
| Net.FromOctetsBound | net.py:10 | four bytes make a 32-bit number |
| Net.UnformatIp | net.py:9-10 | a piece that is not a number raises ValueError; otherwise the pieces are packed as four bytes; success needs four pieces |
| Net.ParseShowNat | net.py:6-10 | a rendered byte reads back as the byte |
| Net.SplitFormatted | net.py:6-10 | splitting a formatted address on dots gives its four rendered bytes |
| Net.ParseAllShown | net.py:6-10 | rendered bytes read back as the bytes |
| Net.UnformatFormat | net.py:6-10 | `unformat_ip(format_ip(ip)) == ip` for every 32-bit ip |
| Net.MaskIp | net.py:12-16 | ValueError exactly when the prefix is longer than 32 |
| Net.BlockMembers | net.py:13-16 | an address is between the cleared and the set bounds exactly when it agrees with ip above the low bits |
| Net.ClearLowMultiple | net.py:14 | clearing the low bits gives the multiple of the block size at or below the address |
| Net.BlockEndWithin | net.py:15 | a block inside the 32-bit range ends inside it |
| Net.MaskIpBlock | net.py:12-16 | for a prefix in 0..32: start ≤ ip ≤ end < 2^32, the block has 2^(32 - block) addresses, start is aligned, and its members are exactly the addresses that agree with ip in the top `block` bits |
| Net.MaskIpEdges | net.py:12-16 | /32 gives the address alone; /0 gives the whole address space |
| HelloWorldPy.GetBit | obfuscation/hw.py:2 | bit `pos % 8` of byte `pos // 8`, always 0 or 1; IndexError past the end |
| HelloWorldPy.Symbol | obfuscation/hw.py:10-15 | a symbol selects a palette entry in range |
| HelloWorldPy.SymbolShape | obfuscation/hw.py:10-15 | a set flag bit takes 3 bits and selects entries 2..5; a clear one takes 2 bits and selects 0..1 |
| HelloWorldPy.SymbolReadable | obfuscation/hw.py:10-15 | three bits left are enough to read any symbol |
| HelloWorldPy.Symbols | obfuscation/hw.py:9-15 | n symbols give n palette indices in range |
| HelloWorldPy.SymbolsBits | obfuscation/hw.py:8-15 | n symbols take between 2n and 3n bits, all inside the stream |
| HelloWorldPy.SymbolsReadable | obfuscation/hw.py:8-15 | 3n bits always decode n symbols |
| HelloWorldPy.SymbolsPrefix | obfuscation/hw.py:9-15 | fewer symbols read a prefix of the same indices |
| HelloWorldPy.SymbolsStop | obfuscation/hw.py:9-15 | once the stream runs out, reading more symbols gives that same error |
| HelloWorldPy.RenderSnoc | obfuscation/hw.py:16 | each symbol appends its palette entry |
| HelloWorldPy.RenderNoNul | obfuscation/hw.py:4 | decoded text holds no NUL |
| HelloWorldPy.DecodeResult | obfuscation/hw.py:6-17 | only IndexError can be raised |
| HelloWorldPy.Decode | obfuscation/hw.py:6-17 | the loop computes the result of reading `len_` symbols and concatenating their entries |
| HelloWorldPy.DecodeShape | obfuscation/hw.py:6-17 | the output is the entries of exactly `len_` symbols, which took between 2·`len_` and 3·`len_` bits; 3·`len_` bits always suffice |
| HelloWorldPy.HelloSymbols | obfuscation/hw.py:20 | the first message's bytes give the indices 2 0 0 1 3 1 4 0 5 in 22 bits |
| HelloWorldPy.HelloRender | obfuscation/hw.py:4 | those entries spell "Hello, World!" |
| HelloWorldPy.DecodeHello | obfuscation/hw.py:19-20 | `decode([0x01, 0xEB, 0x38], 9)` is "Hello, World!" |
| HelloWorldPy.EggSymbols | obfuscation/hw.py:23 | the second message's bytes give the indices 0 1 0 3 1 1 5 in 16 bits |
| HelloWorldPy.EggRender | obfuscation/hw.py:4 | those entries spell "lol, Wood!" |
| HelloWorldPy.DecodeEgg | obfuscation/hw.py:22-23 | `decode([0x48, 0xF5], 7)` is "lol, Wood!" |
| HelloWorldC.PaletteEntry | obfuscation/hw.c:6 | each C literal is its palette text followed by one NUL |
| HelloWorldC.NulIndex | obfuscation/hw.c:15 | `strlen` is the position of the first NUL |
| HelloWorldC.NulIndexOf | obfuscation/hw.c:15 | a NUL-free text followed by NUL has its own length as `strlen` |
| HelloWorldC.GetBit | obfuscation/hw.c:8-11 | `(stream[pos >> 3] >> (pos & 7)) & 1` is 0 or 1, and it is the bit the Python `get_bit` reads |
| HelloWorldC.StrcpyGetLen | obfuscation/hw.c:13-18 | copies the source up to and including its NUL to the offset, changes nothing else, and returns `strlen` |
| HelloWorldC.ReadSymbol | obfuscation/hw.c:24-27 | reads the same palette index and advances the input index as far as the Python symbol reader |
| HelloWorldC.DecodedStep | obfuscation/hw.c:28 | one more symbol appends its palette entry to the text |
| HelloWorldC.CopyStep | obfuscation/hw.c:28 | the copy at the output index keeps the buffer in shape, one symbol further |
| HelloWorldC.DecodedAll | obfuscation/hw.c:20-30 | after all symbols, the buffer holds the text and its NUL, and the rest is as before |
| HelloWorldC.DecodeOne | obfuscation/hw.c:23-29 | one loop pass moves the buffer one symbol further |
| HelloWorldC.Decode | obfuscation/hw.c:20-30 | `out` starts with the decoded text and a NUL, and the rest of the buffer is untouched; with `len` 0 nothing is written |
| HelloWorldC.Puts | obfuscation/hw.c:40 | `puts` shows the characters before the first NUL |
| HelloWorldC.DecodeAndShow | obfuscation/hw.c:39-40 | decoding into a large enough buffer and printing it shows the decoded text |
| HelloWorldC.Messages | obfuscation/hw.c:32-45 | `main` shows "Hello, World!" and then "lol, Wood!", both fitting the 0x20-character buffer |
| BubbleSort.Swap | bubblesort.c:16-21 | the exchange swaps positions i and i + 1 and leaves the others alone |
| BubbleSort.SwapPermutes | bubblesort.c:16-21 | an exchange keeps the same multiset |
| BubbleSort.SwapRemovesInversion | bubblesort.c:16-21 | exchanging an out-of-order pair removes exactly one inversion |
| BubbleSort.AdjacentSorted | bubblesort.c:13-23 | every adjacent pair in order means sorted |
| BubbleSort.Pass | bubblesort.c:14-22 | a pass permutes; without an exchange the array is unchanged and sorted; with one the inversion count drops |
| BubbleSort.BubbleSort | bubblesort.c:5-24 | the result is sorted and a permutation of the input; fewer than two items are left alone |
| GeneratorCache.FibPrefix | generator_cache.py:1-5 | the k-th value yielded is F(k) |
| GeneratorCache.IteratorCache.constructor | generator_cache.py:8-10 | an empty cache over the iterator |
| GeneratorCache.IteratorCache.EnsureCache | generator_cache.py:20-25 | the cache only grows, holds the iterator's values in order, and afterwards reaches the index or the iterator is exhausted |
| GeneratorCache.IteratorCache.GetItem | generator_cache.py:12-18 | a negative index raises "Index out of bounds", checked before "Non-integral index"; an integer index succeeds exactly when the iterator yields that far, and gives the value at that position; a cached index consumes nothing more |
| GeneratorCache.FibItem | generator_cache.py:1-18 | indexing a cache over `fib()` gives the Fibonacci numbers |
| MonteCarlo.Add64 | mcarl.c:18 | `uint64_t` addition wraps modulo 2^64 |
| MonteCarlo.Mul64 | mcarl.c:16 | `uint64_t` multiplication is exact when no wrap occurs |
| MonteCarlo.SumSquares64 | mcarl.c:8 | `x*x + y*y` is exact when it fits in 64 bits |
| MonteCarlo.BinsearchRad | mcarl.c:4-13 | the result lies in `[y_start, y_end)`, and the base case returns `y_start` |
| MonteCarlo.BinsearchBracket | mcarl.c:4-13 | from a bracket x²+y_start² < rad_sq ≤ x²+y_end², the result y has x²+y² < rad_sq ≤ x²+(y+1)² |
| MonteCarlo.Row | mcarl.c:18 | one column's search is below r |
| MonteCarlo.RowCountsColumn | mcarl.c:16-18 | for r ≤ 2^24 nothing wraps, the bracket holds, and the search returns the number of rows of column x inside the circle |
| MonteCarlo.HitSum | mcarl.c:16-19 | the sum of the first n searches is at most n·(r − 1) |
| MonteCarlo.HitSumCountsLattice | mcarl.c:16-19 | the sum of the first n searches equals the number of lattice points (x, y) with 0 ≤ x < n and 1 ≤ y < r strictly inside the circle; row y = 0 is not counted, because a search returns the last row inside, which is the number of rows 1 … y |
| MonteCarlo.Hits | mcarl.c:16-19 | `hit` is the sum of the searches over every column, with no wrap, and equals the lattice count |
| MonteCarlo.MainHits | mcarl.c:15-19 | the same with r = 0x1000000 |
| RangeSum.FloorDivFloors | rangesum.py:4 | Python `//` rounds toward negative infinity, for either sign of divisor |
| RangeSum.Elements | rangesum.py:2 | `list(r)` is empty exactly when the range runs nowhere in its own direction |
| RangeSum.ElementsAt | rangesum.py:4 | element k is start + k·step |
| RangeSum.LengthBounds | rangesum.py:4 | the last element lies before stop, and one more step reaches or passes it |
| RangeSum.SumSeries | rangesum.py:5 | twice the sum is n·(2·start + (n − 1)·step) |
| RangeSum.FloorDivExact | rangesum.py:5 | an exact multiple divides back exactly with `//` |
| RangeSum.RSumAsWritten | rangesum.py:2-5 | as written, for a positive step and start < stop, the formula gives `sum(r)` |
| RangeSum.AsWrittenDescending | rangesum.py:4-5 | as written, `range(11, 1, -2)` gives 36 while its sum is 35 |
| RangeSum.AsWrittenEmpty | rangesum.py:4-5 | as written, `range(5, 3)` gives −7 while its sum is 0 |
| RangeSum.StepsQuotient | rangesum.py:4 | the step count quotient is the same in either direction |
| RangeSum.StepsBeforeStop | rangesum.py:4 | the whole steps short of stop are one fewer than the elements |
| RangeSum.LastElementIs | rangesum.py:4 | `range_end` is start + (len − 1)·step, the last element of the range |
| RangeSum.LastElementBounds | rangesum.py:4 | `range_end` is on the near side of stop, and one more step reaches or passes it |
| RangeSum.CountFormula | rangesum.py:5 | `(range_end - start + step) // step` is `len(r)` |
| RangeSum.SeriesProduct | rangesum.py:5 | (first + last)·(last − first + step) is 2·step times the sum, so the division is exact |
| RangeSum.ClosedForm | rangesum.py:5 | for a non-empty range the product is exactly 2·step times the sum, and the `//` gives the sum |
| RangeSum.RSum | rangesum.py:2-5 | the corrected formula gives `sum(r)` for every range |

## Left out

- Input and output are not modelled. This covers the `tqdm` progress bar, printing the recent lines to stderr in `DebuggedStream.__exit__`, printing the result of `main` in `net.py`, `bubblesort.c`, `mcarl.c` and `hw.py`, and the stderr note in `compute_uniquely_retained_size`.
- Argument parsing is not modelled: `net.py` `main` (splitting `ip/block`) and `bubblesort.c` `main` (`sscanf`).
- The `is None` checks at the start of `add_package`, `add_dependency`, `add_optional_dependency` and `add_alias` are left out, because names in the model are always strings.
- PacmanValues.DecimalValue: reads only plain decimal numerals. Signs, exponents, underscores, `inf` and `nan` are not modelled, and the value is an exact rational rather than a double.
- PacmanValues.ParseSize: the product is exact, so float rounding is not modelled. The ValueError messages for a wrong word count and for a bad number are shortened forms of Python's.
- Net.ParseInt: reads ASCII decimal digits only, with surrounding whitespace and an optional sign. Python 3.6 and later also accept underscores between digits (`1_0`), and `int` on a text string accepts non-ASCII decimal digits; neither is modelled. Python 2, which the script's `#!/usr/bin/env python` line also runs under, refuses underscores, as the model does.
- PyStr.Strip: whitespace means the ASCII whitespace characters. Unicode whitespace is not modelled.
- PacmanGraph.PacmanInstalledSet.AdjustedSize: the weights are exact rationals, so float rounding is not modelled.
- A `PacmanPackage` is a value stored in the `packages` map. Updating one of its sets replaces the map entry, and aliasing of package objects is not modelled.
- The aggregators take a set of names. A bare string standing for a one-element set is not modelled, and neither are iterables with repeats.
- When several names would each raise a KeyError, the model says only that the error names one of them, not which.
- PacmanGraph.PacmanInstalledSet.RetainedSetInternal: requires resolved dependency sets (as finalisation leaves them) and no alias chains. Without these the Python recursion can follow an alias back to an ancestor.
- PacmanGraph.PacmanInstalledSet.AdjustedSize: requires resolved dependency sets once the index exists, and no alias chains, for the same reason.
- PacmanParser.FromPacmanQiStream: does not state which exact message a failing line raises. It states only that the exception is a ValueError or KeyError, and exactly which lines fail. The same holds for ReadLines, ReadLine, ReadEntry and ApplyEntry.
- ShellQuote.QuoteOptimal: the contract does not say where quotes are placed, nor that the output is the shortest one.
- HelloWorldC.Decode: the input is an immutable sequence of bytes. Reading past its end, and an output buffer too small for the text, are undefined behaviour in C, so both are preconditions.
- HelloWorldC.Decode: the contents of the uninitialised buffer are not modelled. The contract says only that characters past the text and its NUL are not written.
- BubbleSort.BubbleSort sorts integers rather than doubles. NaN, which is not ordered, is not modelled.
- The iterator of `IteratorCache` is the sequence of results of its `next` calls: a value, or the end of iteration. An iterator whose `next` raises some other exception is not modelled. The model also takes an exhausted iterator to stay exhausted: once `next` has raised StopIteration the cache does not grow, even though a Python iterator may yield again after that.
- GeneratorCache.IteratorCache.GetItem: an index is an integer or another number recorded by its sign. An index that cannot be compared with 0 raises TypeError in Python, and that case is not modelled.
- MonteCarlo.BinsearchRad: requires `y_start < y_end <= 2^63`. With `y_start >= y_end` the C recursion does not end, and above 2^63 the midpoint sum can wrap.
- MonteCarlo.Hits is stated for any radius up to 2^24. MonteCarlo.MainHits fixes the radius `main` uses.
- The `long double` estimate printed by `mcarl.c` `main` is not modelled.

## Findings

| source | as written | input that shows it | evidently intended | confidence | as-written member | corrected member |
|---|---|---|---|---|---|---|
| rangesum.py:4-5 | the last element is `start + (stop - start - 1) // step * step` and the formula is applied to every range | `range(11, 1, -2)` gives 36 (sum 35); `range(5, 3)` gives −7 (sum 0) | the last element counts steps short of stop with the step's own sign, and an empty range sums to 0 | not executed | RangeSum.AsWrittenDescending | RangeSum.RSum |
| arch-linux/pacman_graph.py:74-75 | the buffer drops its oldest line once it holds more than 10, whatever `num_lines` is | `DebuggedStream(stream, num_lines=3)` after five lines holds five | the buffer keeps the last `num_lines` lines | not executed | PacmanParser.RecordIgnoresNumLines | PacmanParser.DebuggedStream.Pass |
