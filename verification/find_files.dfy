/**
 * `cli.findFiles(paths, excludes, callback)`: collect every entry reachable
 * from the given roots that no exclude rule rejects, and hand the collected
 * paths, sorted, to the callback.
 *
 * The file system is an input: for each path `fs.lstatSync` can stat, its
 * `Stats` and, for a directory, what `FsTools.walk` yields for it (the
 * entries in the order they are reported, and the error it ends with, if
 * any). A path missing from the map makes `lstatSync` throw. Glob patterns
 * are compiled by `makeRe`, a stand-in for `minimatch.makeRe`, which gives
 * no matcher for a pattern it rejects.
 *
 * `Visit` says which entries are reached and how the traversal stops,
 * `Screen` which of them are recorded, and `Conclude` what the call ends
 * with; the class `Search` runs the code's own steps and is proved to end
 * the same way.
 */
module FindFiles {
  import opened Wrappers
  import opened ArraySort

  /** What `fs.lstatSync` reports about a path, as far as the rules can ask. */
  datatype Stats = Stats(isDirectory: bool, isSymbolicLink: bool)

  /** An entry reported by the traversal: its path and its stats. */
  datatype Entry = Entry(path: string, stats: Stats)

  /** What `FsTools.walk` does for a directory: the entries it yields, then the error it ends with, if any. */
  datatype WalkResult = WalkResult(entries: seq<Entry>, error: Option<string>)

  /** A path that can be stat'ed; `walk` matters only when it is a directory. */
  datatype Node = Node(stats: Stats, walk: WalkResult)

  type FileSystem = map<string, Node>

  /** An element of `excludes`: a glob pattern, or a function of path and stats. */
  datatype Rule = Glob(pattern: string) | Predicate(test: (string, Stats) -> bool)

  /** The second argument of `findFiles`: left out (the callback in its place, or null), or a list of rules. */
  datatype Excludes = Omitted | Given(rules: seq<Rule>)

  /**
   * A compiled rule: a predicate wrapped as `{test: p}`, the regular
   * expression `minimatch.makeRe` built, or the `false` it gives for a
   * pattern it rejects.
   */
  datatype Matcher = Tester(test: (string, Stats) -> bool) | RegExp(matches: string -> bool) | NotAMatcher

  /** What `process` does with one entry: record it, skip it, or throw because a rule has no `test`. */
  datatype Decision = Include | Exclude | TypeError

  /** How the traversal of the roots stops. */
  datatype Stop = Done | WalkFailed(err: string) | LstatThrew(path: string)

  /** The entries `process` is given, in order, and how the traversal stops. */
  datatype Trace = Trace(items: seq<Entry>, stop: Stop)

  /**
   * What is thrown instead of calling the callback. Only until the first
   * directory root is handed to `FsTools.walk` does it escape from the
   * `findFiles` call itself. From then on `process` runs inside the iterator
   * of `FsTools.walk` and `walk` runs as its final callback, so the
   * `lstatSync` error and the `TypeError` are raised inside those callbacks.
   */
  datatype Thrown = LstatFailed(path: string) | NotAFunction

  /** How the call ends: the callback is called with an error, if any, and the sorted entries; or an exception escapes. */
  datatype Outcome = Called(err: Option<string>, files: seq<string>) | Throws(thrown: Thrown)

  /* ---- Arguments ---- */

  /** `excludes || []`, after a function second argument has been taken as the callback. */
  function RulesOf(excludes: Excludes): seq<Rule> {
    if excludes.Given? then excludes.rules else []
  }

  /** A rule as `process` finds it: a predicate wrapped as `{test: p}`, or `minimatch.makeRe(pattern)`. */
  function Compile(rule: Rule, makeRe: string -> Option<string -> bool>): (m: Matcher)
    ensures rule.Predicate? ==> m == Tester(rule.test)
    ensures rule.Glob? ==> (m.NotAMatcher? <==> makeRe(rule.pattern).None?)
    ensures rule.Glob? && makeRe(rule.pattern).Some? ==> m == RegExp(makeRe(rule.pattern).value)
  {
    match rule
    case Predicate(test) => Tester(test)
    case Glob(pattern) =>
      match makeRe(pattern)
      case None => NotAMatcher
      case Some(re) => RegExp(re)
  }

  /** The rules compiled once, before the traversal, in their order. */
  function CompileAll(rules: seq<Rule>, makeRe: string -> Option<string -> bool>): (ms: seq<Matcher>)
    ensures |ms| == |rules|
    ensures forall i :: 0 <= i < |rules| ==> ms[i] == Compile(rules[i], makeRe)
  {
    if rules == [] then [] else [Compile(rules[0], makeRe)] + CompileAll(rules[1..], makeRe)
  }

  /** `_.filter(paths, function (p) { return !!p; })`: the empty string is the only falsy path. */
  function NonEmpty(paths: seq<string>): (r: seq<string>)
    ensures forall p :: p in r <==> p in paths && p != ""
    ensures |r| <= |paths|
  {
    if paths == [] then []
    else if paths[0] == "" then NonEmpty(paths[1..])
    else [paths[0]] + NonEmpty(paths[1..])
  }

  lemma {:induction false} NonEmptyAppend(a: seq<string>, b: seq<string>)
    ensures NonEmpty(a + b) == NonEmpty(a) + NonEmpty(b)
    decreases |a|
  {
    if a == [] {
      assert a + b == b;
    } else {
      assert (a + b)[0] == a[0] && (a + b)[1..] == a[1..] + b;
      NonEmptyAppend(a[1..], b);
      if a[0] != "" {
        assert NonEmpty(a + b) == [a[0]] + NonEmpty(a[1..] + b);
        assert [a[0]] + (NonEmpty(a[1..]) + NonEmpty(b)) == ([a[0]] + NonEmpty(a[1..])) + NonEmpty(b);
      }
    }
  }

  /* ---- The exclusion check ---- */

  /** A compiled rule says yes to an entry. */
  predicate Fires(m: Matcher, filename: string, stats: Stats) {
    match m
    case Tester(test) => test(filename, stats)
    case RegExp(matches) => matches(filename)
    case NotAMatcher => false
  }

  /** `_.any(excludes, ...)`: the rules are asked in order and the first that says yes ends the search. */
  function AnyFires(ms: seq<Matcher>, filename: string, stats: Stats): Decision
    decreases |ms|
  {
    if |ms| == 0 then Include
    else if ms[0].NotAMatcher? then TypeError
    else if Fires(ms[0], filename, stats) then Exclude
    else AnyFires(ms[1..], filename, stats)
  }

  /** The decision `process` takes for an entry; the rules are consulted only when there are some. */
  function Decide(ms: seq<Matcher>, filename: string, stats: Stats): Decision {
    if 0 < |ms| then AnyFires(ms, filename, stats) else Include
  }

  /** Every rule compiled to something with a `test`. */
  predicate AllCompiled(ms: seq<Matcher>) {
    forall i :: 0 <= i < |ms| ==> !ms[i].NotAMatcher?
  }

  /** A rule that compiled and says no passes the entry on to the rules after it. */
  lemma {:induction false} DecideTail(ms: seq<Matcher>, filename: string, stats: Stats)
    requires 0 < |ms| && !ms[0].NotAMatcher? && !Fires(ms[0], filename, stats)
    ensures Decide(ms, filename, stats) == Decide(ms[1..], filename, stats)
  {
    if |ms| == 1 {
      assert AnyFires(ms[1..], filename, stats) == Include;
    }
  }

  /** When every rule compiled, an entry is excluded exactly when some rule says yes to it. */
  lemma {:induction false} DecideAllCompiled(ms: seq<Matcher>, filename: string, stats: Stats)
    requires AllCompiled(ms)
    ensures Decide(ms, filename, stats) != TypeError
    ensures Decide(ms, filename, stats) == Exclude <==> exists i :: 0 <= i < |ms| && Fires(ms[i], filename, stats)
    decreases |ms|
  {
    if 0 < |ms| {
      assert !ms[0].NotAMatcher?;
      if Fires(ms[0], filename, stats) {
        assert Decide(ms, filename, stats) == Exclude;
      } else {
        assert AllCompiled(ms[1..]) by {
          forall i | 0 <= i < |ms[1..]| ensures !ms[1..][i].NotAMatcher? {
            assert ms[1..][i] == ms[i + 1];
          }
        }
        DecideAllCompiled(ms[1..], filename, stats);
        DecideTail(ms, filename, stats);
        if exists i :: 0 <= i < |ms| && Fires(ms[i], filename, stats) {
          var i :| 0 <= i < |ms| && Fires(ms[i], filename, stats);
          assert ms[1..][i - 1] == ms[i];
        }
        if exists j :: 0 <= j < |ms[1..]| && Fires(ms[1..][j], filename, stats) {
          var j :| 0 <= j < |ms[1..]| && Fires(ms[1..][j], filename, stats);
          assert ms[j + 1] == ms[1..][j];
        }
      }
    }
  }

  /**
   * A pattern `makeRe` rejected makes `process` throw, unless a rule before it
   * has already said yes: it throws exactly when some rejected pattern is
   * reached with every rule before it saying no.
   */
  lemma {:induction false} DecideTypeError(ms: seq<Matcher>, filename: string, stats: Stats)
    ensures Decide(ms, filename, stats) == TypeError <==>
      exists k :: 0 <= k < |ms| && ms[k].NotAMatcher? &&
        forall i :: 0 <= i < k ==> !ms[i].NotAMatcher? && !Fires(ms[i], filename, stats)
    decreases |ms|
  {
    if |ms| == 0 {
    } else if ms[0].NotAMatcher? {
      assert Decide(ms, filename, stats) == TypeError;
    } else if Fires(ms[0], filename, stats) {
      assert Decide(ms, filename, stats) == Exclude;
      forall k | 0 <= k < |ms| && ms[k].NotAMatcher?
        ensures !forall i :: 0 <= i < k ==> !ms[i].NotAMatcher? && !Fires(ms[i], filename, stats)
      {
        assert k > 0;
      }
    } else {
      DecideTypeError(ms[1..], filename, stats);
      var rest := ms[1..];
      DecideTail(ms, filename, stats);
      if Decide(rest, filename, stats) == TypeError {
        var k :| 0 <= k < |rest| && rest[k].NotAMatcher? &&
          forall i :: 0 <= i < k ==> !rest[i].NotAMatcher? && !Fires(rest[i], filename, stats);
        assert ms[k + 1] == rest[k];
        assert forall i :: 0 <= i < k + 1 ==> !ms[i].NotAMatcher? && !Fires(ms[i], filename, stats) by {
          forall i | 0 < i < k + 1 ensures !ms[i].NotAMatcher? && !Fires(ms[i], filename, stats) {
            assert ms[i] == rest[i - 1];
          }
        }
      }
      if exists k :: 0 <= k < |ms| && ms[k].NotAMatcher? &&
          forall i :: 0 <= i < k ==> !ms[i].NotAMatcher? && !Fires(ms[i], filename, stats) {
        var k :| 0 <= k < |ms| && ms[k].NotAMatcher? &&
          forall i :: 0 <= i < k ==> !ms[i].NotAMatcher? && !Fires(ms[i], filename, stats);
        assert k > 0;
        assert rest[k - 1] == ms[k];
        assert forall i :: 0 <= i < k - 1 ==> !rest[i].NotAMatcher? && !Fires(rest[i], filename, stats) by {
          forall i | 0 <= i < k - 1 ensures !rest[i].NotAMatcher? && !Fires(rest[i], filename, stats) {
            assert rest[i] == ms[i + 1];
          }
        }
        if 1 < |ms| {
          assert Decide(ms, filename, stats) == AnyFires(rest, filename, stats);
        }
      }
    }
  }

  /* ---- Which entries are recorded ---- */

  function Paths(items: seq<Entry>): (ps: seq<string>)
    ensures |ps| == |items|
    ensures forall i :: 0 <= i < |items| ==> ps[i] == items[i].path
  {
    if items == [] then [] else [items[0].path] + Paths(items[1..])
  }

  /**
   * `process` applied to each entry in turn: the paths it records, in order,
   * or nothing when it throws on one of them.
   */
  function Screen(ms: seq<Matcher>, items: seq<Entry>): Option<seq<string>>
    decreases |items|
  {
    if items == [] then Some([])
    else
      var d := Decide(ms, items[0].path, items[0].stats);
      if d == TypeError then None
      else
        match Screen(ms, items[1..])
        case None => None
        case Some(kept) => Some(if d == Include then [items[0].path] + kept else kept)
  }

  /** Screening two runs of entries one after the other. */
  lemma {:induction false} ScreenAppend(ms: seq<Matcher>, a: seq<Entry>, b: seq<Entry>)
    ensures Screen(ms, a + b) ==
      if Screen(ms, a).None? || Screen(ms, b).None? then None
      else Some(Screen(ms, a).value + Screen(ms, b).value)
    decreases |a|
  {
    if a == [] {
      assert a + b == b;
      assert Screen(ms, a) == Some([]);
      if Screen(ms, b).Some? {
        assert [] + Screen(ms, b).value == Screen(ms, b).value;
      }
    } else {
      assert (a + b)[0] == a[0] && (a + b)[1..] == a[1..] + b;
      ScreenAppend(ms, a[1..], b);
      var d := Decide(ms, a[0].path, a[0].stats);
      if d != TypeError && Screen(ms, a[1..]).Some? && Screen(ms, b).Some? {
        var x, y := Screen(ms, a[1..]).value, Screen(ms, b).value;
        assert ([a[0].path] + x) + y == [a[0].path] + (x + y);
      }
    }
  }

  /** Screening a single entry: what `process` does with it. */
  lemma {:induction false} ScreenOne(ms: seq<Matcher>, e: Entry)
    ensures var d := Decide(ms, e.path, e.stats);
      Screen(ms, [e]) == if d == TypeError then None else Some(if d == Include then [e.path] else [])
  {
    assert [e][0] == e && [e][1..] == [];
    assert Screen(ms, [e][1..]) == Some([]);
    if Decide(ms, e.path, e.stats) == Include {
      assert [e.path] + [] == [e.path];
    }
  }

  /** `process` throws on some entry exactly when one of them is decided `TypeError`. */
  lemma {:induction false} ScreenThrows(ms: seq<Matcher>, items: seq<Entry>)
    ensures Screen(ms, items).None? <==>
      exists i :: 0 <= i < |items| && Decide(ms, items[i].path, items[i].stats) == TypeError
    decreases |items|
  {
    if items != [] {
      ScreenThrows(ms, items[1..]);
      if exists i :: 0 <= i < |items| && Decide(ms, items[i].path, items[i].stats) == TypeError {
        var i :| 0 <= i < |items| && Decide(ms, items[i].path, items[i].stats) == TypeError;
        if i > 0 {
          assert items[1..][i - 1] == items[i];
        }
      }
      if exists j :: 0 <= j < |items[1..]| && Decide(ms, items[1..][j].path, items[1..][j].stats) == TypeError {
        var j :| 0 <= j < |items[1..]| && Decide(ms, items[1..][j].path, items[1..][j].stats) == TypeError;
        assert items[j + 1] == items[1..][j];
      }
    }
  }

  /** A path is recorded exactly when some entry with that path is decided `Include`. */
  lemma {:induction false} ScreenRecords(ms: seq<Matcher>, items: seq<Entry>, x: string)
    requires Screen(ms, items).Some?
    ensures x in Screen(ms, items).value <==>
      exists i :: 0 <= i < |items| && items[i].path == x && Decide(ms, items[i].path, items[i].stats) == Include
    decreases |items|
  {
    if items != [] {
      ScreenRecords(ms, items[1..], x);
      if exists i :: 0 <= i < |items| && items[i].path == x && Decide(ms, items[i].path, items[i].stats) == Include {
        var i :| 0 <= i < |items| && items[i].path == x && Decide(ms, items[i].path, items[i].stats) == Include;
        if i > 0 {
          assert items[1..][i - 1] == items[i];
        }
      }
      var rest := items[1..];
      if exists j :: 0 <= j < |rest| && rest[j].path == x && Decide(ms, rest[j].path, rest[j].stats) == Include {
        var j :| 0 <= j < |rest| && rest[j].path == x && Decide(ms, rest[j].path, rest[j].stats) == Include;
        assert items[j + 1] == rest[j];
      }
    }
  }

  /** With no rules every entry is recorded, duplicates included, in the order it was reached. */
  lemma {:induction false} ScreenNoRules(ms: seq<Matcher>, items: seq<Entry>)
    requires |ms| == 0
    ensures Screen(ms, items) == Some(Paths(items))
    decreases |items|
  {
    if items != [] {
      ScreenNoRules(ms, items[1..]);
      assert Paths(items) == [items[0].path] + Paths(items[1..]);
    }
  }

  /* ---- Which entries are reached ---- */

  /** Entries reached before the rest of a trace. */
  function Prepend(items: seq<Entry>, t: Trace): (r: Trace)
    ensures r.items == items + t.items && r.stop == t.stop
  {
    Trace(items + t.items, t.stop)
  }

  /**
   * The roots taken in order: a root that is not a directory is itself the
   * entry; a directory gives what `FsTools.walk` yields for it. A root that
   * cannot be stat'ed, or a walk that ends with an error, stops everything.
   */
  function Visit(fs: FileSystem, roots: seq<string>): Trace
    decreases |roots|
  {
    if roots == [] then Trace([], Done)
    else if roots[0] !in fs then Trace([], LstatThrew(roots[0]))
    else
      var node := fs[roots[0]];
      if !node.stats.isDirectory then Prepend([Entry(roots[0], node.stats)], Visit(fs, roots[1..]))
      else if node.walk.error.Some? then Trace(node.walk.entries, WalkFailed(node.walk.error.value))
      else Prepend(node.walk.entries, Visit(fs, roots[1..]))
  }

  /** Roots one after the other: the second run is visited only when the first one finished. */
  lemma {:induction false} VisitAppend(fs: FileSystem, a: seq<string>, b: seq<string>)
    ensures Visit(fs, a + b) ==
      if Visit(fs, a).stop == Done then Prepend(Visit(fs, a).items, Visit(fs, b)) else Visit(fs, a)
    decreases |a|
  {
    if a == [] {
      assert a + b == b;
      assert [] + Visit(fs, b).items == Visit(fs, b).items;
    } else {
      assert (a + b)[0] == a[0] && (a + b)[1..] == a[1..] + b;
      VisitAppend(fs, a[1..], b);
      if a[0] in fs && (!fs[a[0]].stats.isDirectory || fs[a[0]].walk.error.None?) {
        var node := fs[a[0]];
        var first := if !node.stats.isDirectory then [Entry(a[0], node.stats)] else node.walk.entries;
        assert Visit(fs, a) == Prepend(first, Visit(fs, a[1..]));
        if Visit(fs, a).stop == Done {
          assert first + (Visit(fs, a[1..]).items + Visit(fs, b).items)
              == (first + Visit(fs, a[1..]).items) + Visit(fs, b).items;
        }
      }
    }
  }

  /* ---- How the call ends ---- */

  /**
   * After `recorded` has been gathered, the rest of the traversal `t`: an
   * exception from `process` comes first, since it happens while the entries
   * are processed; then a root that cannot be stat'ed throws; otherwise the
   * callback gets the walk error, if any, and all that was recorded, sorted.
   */
  function Conclude(ms: seq<Matcher>, recorded: seq<string>, t: Trace): Outcome {
    match Screen(ms, t.items)
    case None => Throws(NotAFunction)
    case Some(kept) =>
      match t.stop
      case Done => Called(None, Sort(recorded + kept))
      case WalkFailed(err) => Called(Some(err), Sort(recorded + kept))
      case LstatThrew(p) => Throws(LstatFailed(p))
  }

  /** Processing a run of entries first moves what it records into `recorded`. */
  lemma {:induction false} ConcludePrepend(ms: seq<Matcher>, recorded: seq<string>, items: seq<Entry>, t: Trace)
    ensures Conclude(ms, recorded, Prepend(items, t)) ==
      if Screen(ms, items).None? then Throws(NotAFunction)
      else Conclude(ms, recorded + Screen(ms, items).value, t)
  {
    ScreenAppend(ms, items, t.items);
    if Screen(ms, items).Some? && Screen(ms, t.items).Some? {
      var k1, k2 := Screen(ms, items).value, Screen(ms, t.items).value;
      assert recorded + (k1 + k2) == (recorded + k1) + k2;
    }
  }

  /** `cli.findFiles(paths, excludes, callback)`. */
  function FindFilesSpec(fs: FileSystem, paths: seq<string>, excludes: Excludes, makeRe: string -> Option<string -> bool>): Outcome {
    Conclude(CompileAll(RulesOf(excludes), makeRe), [], Visit(fs, NonEmpty(paths)))
  }

  /** A directory's walk processed: an error ends the call, otherwise the rest of the roots follow. */
  lemma {:induction false} ConcludeWalk(ms: seq<Matcher>, recorded: seq<string>, w: WalkResult, t: Trace)
    ensures var d := if w.error.Some? then Trace(w.entries, WalkFailed(w.error.value)) else Prepend(w.entries, t);
      Conclude(ms, recorded, d) ==
        if Screen(ms, w.entries).None? then Throws(NotAFunction)
        else if w.error.Some? then Called(w.error, Sort(recorded + Screen(ms, w.entries).value))
        else Conclude(ms, recorded + Screen(ms, w.entries).value, t)
  {
    if w.error.None? {
      ConcludePrepend(ms, recorded, w.entries, t);
    }
  }

  /* ---- Properties of findFiles ---- */

  /**
   * When the callback is called, what it gets is sorted, and it is exactly
   * the recorded entries, each as often as it was recorded: sorting neither
   * adds nor removes anything, duplicates included.
   */
  lemma {:induction false} FilesSortedPermutation(fs: FileSystem, paths: seq<string>, excludes: Excludes, makeRe: string -> Option<string -> bool>)
    requires FindFilesSpec(fs, paths, excludes, makeRe).Called?
    ensures var ms := CompileAll(RulesOf(excludes), makeRe);
      var kept := Screen(ms, Visit(fs, NonEmpty(paths)).items);
      var files := FindFilesSpec(fs, paths, excludes, makeRe).files;
      kept.Some? && Sorted(files) && multiset(files) == multiset(kept.value) && files == Sort(kept.value)
  {
    var ms := CompileAll(RulesOf(excludes), makeRe);
    var kept := Screen(ms, Visit(fs, NonEmpty(paths)).items);
    assert [] + kept.value == kept.value;
    var files := FindFilesSpec(fs, paths, excludes, makeRe).files;
    assert files == Sort(kept.value);
    assert Sorted(Sort(kept.value)) && multiset(Sort(kept.value)) == multiset(kept.value);
  }

  /**
   * A path is handed to the callback exactly when some entry reached with
   * that path is decided `Include`.
   */
  lemma {:induction false} Recorded(fs: FileSystem, paths: seq<string>, excludes: Excludes, makeRe: string -> Option<string -> bool>, x: string)
    requires FindFilesSpec(fs, paths, excludes, makeRe).Called?
    ensures var ms := CompileAll(RulesOf(excludes), makeRe);
      var items := Visit(fs, NonEmpty(paths)).items;
      x in FindFilesSpec(fs, paths, excludes, makeRe).files <==>
        exists i :: 0 <= i < |items| && items[i].path == x && Decide(ms, items[i].path, items[i].stats) == Include
  {
    var ms := CompileAll(RulesOf(excludes), makeRe);
    var items := Visit(fs, NonEmpty(paths)).items;
    FilesSortedPermutation(fs, paths, excludes, makeRe);
    ScreenRecords(ms, items, x);
    assert x in FindFilesSpec(fs, paths, excludes, makeRe).files <==> x in multiset(Screen(ms, items).value);
  }

  /** Every glob pattern compiled. */
  predicate PatternsCompile(rules: seq<Rule>, makeRe: string -> Option<string -> bool>) {
    forall i :: 0 <= i < |rules| && rules[i].Glob? ==> makeRe(rules[i].pattern).Some?
  }

  /** What `filter.test(filename, lstats)` answers, for a rule whose pattern compiled. */
  predicate Tests(rule: Rule, makeRe: string -> Option<string -> bool>, filename: string, stats: Stats)
    requires rule.Glob? ==> makeRe(rule.pattern).Some?
  {
    match rule
    case Predicate(test) => test(filename, stats)
    case Glob(pattern) => makeRe(pattern).value(filename)
  }

  /**
   * When every pattern compiles, `process` never throws, and a path reaches
   * the callback exactly when it was reached with no rule saying yes to it,
   * stated both for the compiled matchers and for the rules as given.
   */
  lemma {:induction false} RecordedUnlessExcluded(fs: FileSystem, paths: seq<string>, excludes: Excludes, makeRe: string -> Option<string -> bool>, x: string)
    requires PatternsCompile(RulesOf(excludes), makeRe)
    ensures FindFilesSpec(fs, paths, excludes, makeRe) != Throws(NotAFunction)
    ensures var ms := CompileAll(RulesOf(excludes), makeRe);
      var items := Visit(fs, NonEmpty(paths)).items;
      FindFilesSpec(fs, paths, excludes, makeRe).Called? ==>
        (x in FindFilesSpec(fs, paths, excludes, makeRe).files <==>
          exists i :: 0 <= i < |items| && items[i].path == x &&
            forall j :: 0 <= j < |ms| ==> !Fires(ms[j], items[i].path, items[i].stats))
    ensures var rules := RulesOf(excludes);
      var items := Visit(fs, NonEmpty(paths)).items;
      FindFilesSpec(fs, paths, excludes, makeRe).Called? ==>
        (x in FindFilesSpec(fs, paths, excludes, makeRe).files <==>
          exists i :: 0 <= i < |items| && items[i].path == x &&
            forall j :: 0 <= j < |rules| ==> !Tests(rules[j], makeRe, items[i].path, items[i].stats))
  {
    var ms := CompileAll(RulesOf(excludes), makeRe);
    var items := Visit(fs, NonEmpty(paths)).items;
    assert AllCompiled(ms);
    forall i | 0 <= i < |items| ensures Decide(ms, items[i].path, items[i].stats) != TypeError {
      DecideAllCompiled(ms, items[i].path, items[i].stats);
    }
    ScreenThrows(ms, items);
    if FindFilesSpec(fs, paths, excludes, makeRe).Called? {
      Recorded(fs, paths, excludes, makeRe, x);
      forall i | 0 <= i < |items|
        ensures Decide(ms, items[i].path, items[i].stats) == Include <==>
          forall j :: 0 <= j < |ms| ==> !Fires(ms[j], items[i].path, items[i].stats)
      {
        DecideAllCompiled(ms, items[i].path, items[i].stats);
      }
      var rules := RulesOf(excludes);
      forall i, j | 0 <= i < |items| && 0 <= j < |ms|
        ensures Fires(ms[j], items[i].path, items[i].stats) == Tests(rules[j], makeRe, items[i].path, items[i].stats)
      {
      }
    }
  }

  /** With no excludes, omitted or empty, every entry reached is handed to the callback, duplicates included. */
  lemma {:induction false} NoExcludesKeepsAll(fs: FileSystem, paths: seq<string>, excludes: Excludes, makeRe: string -> Option<string -> bool>)
    requires RulesOf(excludes) == []
    ensures var t := Visit(fs, NonEmpty(paths));
      FindFilesSpec(fs, paths, excludes, makeRe) ==
        match t.stop
        case Done => Called(None, Sort(Paths(t.items)))
        case WalkFailed(err) => Called(Some(err), Sort(Paths(t.items)))
        case LstatThrew(p) => Throws(LstatFailed(p))
  {
    var t := Visit(fs, NonEmpty(paths));
    ScreenNoRules(CompileAll(RulesOf(excludes), makeRe), t.items);
    assert [] + Paths(t.items) == Paths(t.items);
  }

  /** Empty paths are dropped before the traversal: adding one anywhere changes nothing. */
  lemma {:induction false} EmptyPathSkipped(fs: FileSystem, a: seq<string>, b: seq<string>, excludes: Excludes, makeRe: string -> Option<string -> bool>)
    ensures FindFilesSpec(fs, a + [""] + b, excludes, makeRe) == FindFilesSpec(fs, a + b, excludes, makeRe)
  {
    NonEmptyAppend(a + [""], b);
    NonEmptyAppend(a, [""]);
    NonEmptyAppend(a, b);
    assert NonEmpty([""]) == [];
    assert NonEmpty(a) + [] == NonEmpty(a);
  }

  /** A root that is not empty stays where it is among the non-empty roots. */
  lemma {:induction false} NonEmptyAround(a: seq<string>, r: string, rest: seq<string>)
    requires r != ""
    ensures NonEmpty(a + [r] + rest) == NonEmpty(a) + ([r] + NonEmpty(rest))
  {
    NonEmptyAppend(a + [r], rest);
    NonEmptyAppend(a, [r]);
    assert NonEmpty([r]) == [r];
  }

  /** The traversal reaches a directory whose walk fails and stops there, whatever roots follow. */
  lemma {:induction false} VisitFailedWalk(fs: FileSystem, a: seq<string>, r: string, rest: seq<string>)
    requires Visit(fs, NonEmpty(a)).stop == Done
    requires r != "" && r in fs && fs[r].stats.isDirectory && fs[r].walk.error.Some?
    ensures Visit(fs, NonEmpty(a + [r] + rest)) ==
      Trace(Visit(fs, NonEmpty(a)).items + fs[r].walk.entries, WalkFailed(fs[r].walk.error.value))
  {
    NonEmptyAround(a, r, rest);
    var tail := [r] + NonEmpty(rest);
    VisitAppend(fs, NonEmpty(a), tail);
    assert tail[0] == r;
  }

  /**
   * A walk that ends with an error ends the call: the roots after it are
   * never looked at, and the callback gets the error with the sorted entries
   * recorded so far (unless `process` threw on one of them).
   */
  lemma {:induction false} WalkErrorStops(fs: FileSystem, a: seq<string>, r: string, b: seq<string>, c: seq<string>, excludes: Excludes, makeRe: string -> Option<string -> bool>)
    requires Visit(fs, NonEmpty(a)).stop == Done
    requires r != "" && r in fs && fs[r].stats.isDirectory && fs[r].walk.error.Some?
    ensures FindFilesSpec(fs, a + [r] + b, excludes, makeRe) == FindFilesSpec(fs, a + [r] + c, excludes, makeRe)
    ensures var ms := CompileAll(RulesOf(excludes), makeRe);
      var kept := Screen(ms, Visit(fs, NonEmpty(a)).items + fs[r].walk.entries);
      kept.Some? ==>
        FindFilesSpec(fs, a + [r] + b, excludes, makeRe) == Called(fs[r].walk.error, Sort(kept.value))
  {
    VisitFailedWalk(fs, a, r, b);
    VisitFailedWalk(fs, a, r, c);
    var ms := CompileAll(RulesOf(excludes), makeRe);
    var kept := Screen(ms, Visit(fs, NonEmpty(a)).items + fs[r].walk.entries);
    if kept.Some? {
      assert [] + kept.value == kept.value;
    }
  }

  /**
   * A call on the roots `a + b` ends without an error exactly when the
   * traversal gets through both runs and `process` throws on neither; the
   * callback then gets what both runs recorded, sorted.
   */
  lemma {:induction false} TwoRuns(fs: FileSystem, a: seq<string>, b: seq<string>, excludes: Excludes, makeRe: string -> Option<string -> bool>)
    ensures var ms := CompileAll(RulesOf(excludes), makeRe);
      var ta, tb := Visit(fs, NonEmpty(a)), Visit(fs, NonEmpty(b));
      var out := FindFilesSpec(fs, a + b, excludes, makeRe);
      (out.Called? && out.err.None?) <==>
        (ta.stop == Done && tb.stop == Done && Screen(ms, ta.items).Some? && Screen(ms, tb.items).Some?)
    ensures var ms := CompileAll(RulesOf(excludes), makeRe);
      var ta, tb := Visit(fs, NonEmpty(a)), Visit(fs, NonEmpty(b));
      ta.stop == Done && tb.stop == Done && Screen(ms, ta.items).Some? && Screen(ms, tb.items).Some? ==>
        FindFilesSpec(fs, a + b, excludes, makeRe) ==
          Called(None, Sort(Screen(ms, ta.items).value + Screen(ms, tb.items).value))
  {
    var ms := CompileAll(RulesOf(excludes), makeRe);
    var ta, tb := Visit(fs, NonEmpty(a)), Visit(fs, NonEmpty(b));
    NonEmptyAppend(a, b);
    VisitAppend(fs, NonEmpty(a), NonEmpty(b));
    if ta.stop == Done {
      ScreenAppend(ms, ta.items, tb.items);
      if Screen(ms, ta.items).Some? && Screen(ms, tb.items).Some? {
        var k := Screen(ms, ta.items).value + Screen(ms, tb.items).value;
        assert [] + k == k;
      }
    }
  }

  /**
   * The order of the roots does not matter to a successful call: the
   * entries are sorted once everything has been gathered.
   */
  lemma {:induction false} RootOrderIrrelevant(fs: FileSystem, a: seq<string>, b: seq<string>, excludes: Excludes, makeRe: string -> Option<string -> bool>)
    requires FindFilesSpec(fs, a + b, excludes, makeRe).Called?
    requires FindFilesSpec(fs, a + b, excludes, makeRe).err.None?
    ensures FindFilesSpec(fs, b + a, excludes, makeRe) == FindFilesSpec(fs, a + b, excludes, makeRe)
  {
    var ms := CompileAll(RulesOf(excludes), makeRe);
    TwoRuns(fs, a, b, excludes, makeRe);
    TwoRuns(fs, b, a, excludes, makeRe);
    var ka := Screen(ms, Visit(fs, NonEmpty(a)).items).value;
    var kb := Screen(ms, Visit(fs, NonEmpty(b)).items).value;
    assert multiset(ka + kb) == multiset(kb + ka);
    SortSameContents(ka + kb, kb + ka);
  }

  /* ---- Examples ---- */

  /** A root that cannot be stat'ed makes the call throw. */
  lemma {:induction false} MissingRootThrows(fs: FileSystem, p: string, excludes: Excludes, makeRe: string -> Option<string -> bool>)
    requires p != "" && p !in fs
    ensures FindFilesSpec(fs, [p], excludes, makeRe) == Throws(LstatFailed(p))
  {
    assert NonEmpty([p]) == [p];
  }

  /** A file given twice as a root is handed to the callback twice. */
  lemma {:induction false} DuplicateRootKept(fs: FileSystem, p: string, makeRe: string -> Option<string -> bool>)
    requires p != "" && p in fs && !fs[p].stats.isDirectory
    ensures FindFilesSpec(fs, [p, p], Omitted, makeRe) == Called(None, [p, p])
  {
    assert NonEmpty([p, p]) == [p, p] by {
      assert NonEmpty([p]) == [p];
      assert [p, p][1..] == [p];
    }
    assert [p, p][1..] == [p];
    var t := Visit(fs, [p, p]);
    assert Visit(fs, [p]) == Trace([Entry(p, fs[p].stats)], Done);
    assert t == Trace([Entry(p, fs[p].stats), Entry(p, fs[p].stats)], Done);
    NoExcludesKeepsAll(fs, [p, p], Omitted, makeRe);
    assert Paths(t.items) == [p, p];
    LessEqTotalOrder(p, p, p);
    assert Sorted([p, p]);
    SortedPermutationIsSort([p, p], [p, p]);
  }

  /* ---- The code's own steps ---- */

  /**
   * The state of one `findFiles` call: the closure array `entries` and the
   * queue `paths`, with the compiled rules and the file system it works on.
   */
  class Search {
    var entries: seq<string>
    var paths: seq<string>
    const matchers: seq<Matcher>
    const fs: FileSystem

    constructor (fs: FileSystem, paths: seq<string>, matchers: seq<Matcher>)
      ensures this.fs == fs && this.paths == paths && this.matchers == matchers
      ensures entries == []
    {
      this.fs := fs;
      this.paths := paths;
      this.matchers := matchers;
      entries := [];
    }

    /** `process(filename, lstats)`: push the entry unless a rule excludes it; `threw` when a rule has no `test`. */
    method Process(filename: string, lstats: Stats) returns (threw: bool)
      modifies this`entries
      ensures threw <==> Decide(matchers, filename, lstats) == TypeError
      ensures entries == old(entries) + (if Decide(matchers, filename, lstats) == Include then [filename] else [])
    {
      var keep := true;
      if 0 < |matchers| {
        var d := AnyFires(matchers, filename, lstats);
        if d == TypeError {
          return true;
        }
        keep := d == Include;
      }
      if keep {
        entries := entries + [filename];
      }
      return false;
    }

    /** `process` on every entry a directory walk yields, in order, stopping if it throws. */
    method ProcessAll(items: seq<Entry>) returns (threw: bool)
      modifies this`entries
      ensures threw <==> Screen(matchers, items).None?
      ensures !threw ==> entries == old(entries) + Screen(matchers, items).value
    {
      var i := 0;
      while i < |items|
        invariant 0 <= i <= |items|
        invariant Screen(matchers, items[..i]).Some?
        invariant entries == old(entries) + Screen(matchers, items[..i]).value
      {
        var e := items[i];
        threw := Process(e.path, e.stats);
        ScreenAppend(matchers, items[..i], [e]);
        assert items[..i + 1] == items[..i] + [e];
        ScreenOne(matchers, e);
        if threw {
          ScreenAppend(matchers, items[..i + 1], items[i + 1..]);
          assert items == items[..i + 1] + items[i + 1..];
          return;
        }
        i := i + 1;
      }
      assert items[..i] == items;
      return false;
    }

    /**
     * `walk(err)` and the continuations it passes on, as one loop: take the
     * next root; stop with the callback on an error or when no root is
     * left; stat the root (which throws when it cannot); process a
     * non-directory directly, or every entry of a directory's walk, whose
     * final error is the next round's `err`.
     */
    method Walk() returns (outcome: Outcome)
      modifies this`entries, this`paths
      ensures outcome == Conclude(matchers, old(entries), Visit(fs, old(paths)))
      ensures outcome.Called? ==> entries == outcome.files
    {
      var err: Option<string> := None;
      while true
        invariant err.Some? ==> Conclude(matchers, old(entries), Visit(fs, old(paths))) == Called(err, Sort(entries))
        invariant err.None? ==> Conclude(matchers, old(entries), Visit(fs, old(paths))) == Conclude(matchers, entries, Visit(fs, paths))
        decreases |paths|
      {
        var pathname: Option<string> := None;
        var rest := paths;
        if paths != [] {
          pathname := Some(paths[0]);
          paths := paths[1..];
        }
        if err.Some? || pathname.None? {
          if err.None? {
            assert Visit(fs, rest) == Trace([], Done);
            assert entries + [] == entries;
          }
          entries := Sort(entries);
          return Called(err, entries);
        }
        var p := pathname.value;
        assert rest == [p] + paths;
        if p !in fs {
          return Throws(LstatFailed(p));
        }
        var node := fs[p];
        if !node.stats.isDirectory {
          var e := Entry(p, node.stats);
          assert Visit(fs, rest) == Prepend([e], Visit(fs, paths));
          ConcludePrepend(matchers, entries, [e], Visit(fs, paths));
          ScreenOne(matchers, e);
          var threw := Process(p, node.stats);
          if threw {
            return Throws(NotAFunction);
          }
        } else {
          var before := entries;
          ConcludeWalk(matchers, before, node.walk, Visit(fs, paths));
          var threw := ProcessAll(node.walk.entries);
          if threw {
            return Throws(NotAFunction);
          }
          err := node.walk.error;
        }
      }
    }
  }

  /** `cli.findFiles(paths, excludes, callback)`, ending as `FindFilesSpec` says. */
  method FindFilesCall(fs: FileSystem, paths: seq<string>, excludes: Excludes, makeRe: string -> Option<string -> bool>)
    returns (outcome: Outcome)
    ensures outcome == FindFilesSpec(fs, paths, excludes, makeRe)
  {
    var matchers := CompileAll(RulesOf(excludes), makeRe);
    var search := new Search(fs, NonEmpty(paths), matchers);
    outcome := search.Walk();
  }
}
