/** Loading and reloading the project's ignore rules (internal/filter/filter.go:43-102, 169-326). A read of
    the file is an input; whether a rule compiles and the hash of a content are left abstract. */
module FilterReload {
  import opened FilterRules
  import opened TextLines
  import opened Wrappers

  /** What one read of the .syncignore file finds. */
  datatype Read = NoFile | Unreadable | Content(text: string)

  datatype Env = Env(compiles: string -> bool, hash: string -> int)

  /** A missing file counts as an empty one without rules. */
  function HashOf(env: Env, read: Read): int
    requires !read.Unreadable?
  {
    env.hash(if read.NoFile? then "" else read.text)
  }

  function RulesOf(read: Read): seq<string> {
    if read.Content? then ParseRules(read.text) else []
  }

  /** compiled lists the rules in the current matcher, None if there is no matcher. */
  datatype State = State(globals: seq<string>,
                         project: seq<string>,
                         compiled: Option<seq<string>>,
                         bad: seq<string>,
                         generation: nat,
                         committedHash: int)

  function BadRules(env: Env, rules: seq<string>): seq<string> {
    if rules == [] then []
    else
      var earlier, last := BadRules(env, rules[..|rules| - 1]), rules[|rules| - 1];
      if env.compiles(last) then earlier else earlier + [last]
  }

  /** Without any rule there is no matcher, and the list of bad patterns is left as it is. */
  function Rebuilt(s: State, env: Env): State {
    var all := s.globals + s.project;
    if all == [] then s.(compiled := None) else s.(compiled := Some(all), bad := BadRules(env, all))
  }

  function WithoutBad(rules: seq<string>, bad: seq<string>): seq<string> {
    Without(rules, set r | r in bad)
  }

  function New(env: Env, globals: seq<string>, read: Read): Option<State> {
    if read.Unreadable? then None
    else
      var s := Rebuilt(State(globals, RulesOf(read), None, [], 0, HashOf(env, read)), env);
      Some(if s.bad == [] then s else Rebuilt(s.(project := WithoutBad(s.project, s.bad)), env))
  }

  /** The new rules are the old ones with some taken away: the signature of a truncated file. */
  predicate Shrinks(before: seq<string>, after: seq<string>) {
    multiset(after) < multiset(before)
  }

  /** When a reload commits what its first read found. */
  predicate Commits(s: State, env: Env, first: Read, second: Read) {
    && !first.Unreadable? && HashOf(env, first) != s.committedHash
    && BadRules(env, s.globals + RulesOf(first)) == []
    && (Shrinks(s.project, RulesOf(first)) ==> !second.Unreadable? && HashOf(env, second) == HashOf(env, first))
  }

  function Reload(s: State, env: Env, first: Read, second: Read): State {
    if !Commits(s, env, first, second) then s
    else
      var rules := RulesOf(first);
      State(s.globals, rules, if s.globals + rules == [] then None else Some(s.globals + rules), [],
            if rules == s.project then s.generation else s.generation + 1, HashOf(env, first))
  }

  /** A missing key of the count map reads as zero. */
  function CountOf(counts: map<string, int>, rule: string): int {
    if rule in counts then counts[rule] else 0
  }

  method CountRules(rules: seq<string>) returns (counts: map<string, int>)
    ensures forall x :: CountOf(counts, x) == multiset(rules)[x]
  {
    counts := map[];
    for i := 0 to |rules|
      invariant forall x :: CountOf(counts, x) == multiset(rules[..i])[x]
    {
      assert rules[..i + 1] == rules[..i] + [rules[i]];
      counts := counts[rules[i] := CountOf(counts, rules[i]) + 1];
    }
    assert rules[..|rules|] == rules;
  }

  lemma IncludedIsNoLonger(part: seq<string>, whole: seq<string>)
    requires multiset(part) <= multiset(whole)
    ensures |part| <= |whole|
    ensures |part| == |whole| ==> multiset(part) == multiset(whole)
  {
    var rest := multiset(whole) - multiset(part);
    assert multiset(whole) == multiset(part) + rest;
    assert |multiset(whole)| == |whole| && |multiset(part)| == |part|;
    assert |rest| == 0 ==> rest == multiset{};
  }

  /** The count-down over the old rules decides proper inclusion, duplicates included. */
  method IsStrictSubset(newRules: seq<string>, oldRules: seq<string>) returns (r: bool)
    ensures r <==> Shrinks(oldRules, newRules)
  {
    if |newRules| >= |oldRules| {
      if Shrinks(oldRules, newRules) { IncludedIsNoLonger(newRules, oldRules); }
      return false;
    }
    var counts := CountRules(oldRules);
    for i := 0 to |newRules|
      invariant forall x :: CountOf(counts, x) + multiset(newRules[..i])[x] == multiset(oldRules)[x]
      invariant forall x :: CountOf(counts, x) >= 0
    {
      assert newRules[..i + 1] == newRules[..i] + [newRules[i]];
      if CountOf(counts, newRules[i]) <= 0 {
        TooManyIsNoShrinking(oldRules, newRules, i);
        return false;
      }
      counts := counts[newRules[i] := CountOf(counts, newRules[i]) - 1];
    }
    assert newRules[..|newRules|] == newRules;
    assert forall x :: multiset(newRules)[x] + CountOf(counts, x) == multiset(oldRules)[x];
    assert |multiset(newRules)| == |newRules| && |multiset(oldRules)| == |oldRules|;
    return true;
  }

  lemma TooManyIsNoShrinking(before: seq<string>, after: seq<string>, i: nat)
    requires i < |after| && multiset(after[..i])[after[i]] >= multiset(before)[after[i]]
    ensures !Shrinks(before, after)
  {
    assert after == after[..i] + [after[i]] + after[i + 1..];
    assert multiset(after)[after[i]] > multiset(before)[after[i]];
  }

  /** Compares two rule lists position by position. */
  method Differ(oldRules: seq<string>, newRules: seq<string>) returns (changed: bool)
    ensures changed <==> oldRules != newRules
  {
    if |oldRules| != |newRules| {
      return true;
    }
    for i := 0 to |oldRules|
      invariant oldRules[..i] == newRules[..i]
    {
      if oldRules[i] != newRules[i] {
        return true;
      }
    }
    assert oldRules[..|oldRules|] == oldRules && newRules[..|newRules|] == newRules;
    return false;
  }

  class Engine {
    const env: Env
    var globals: seq<string>
    var project: seq<string>
    var compiled: Option<seq<string>>
    var bad: seq<string>
    var generation: nat
    var committedHash: int

    ghost function View(): State
      reads this
    {
      State(globals, project, compiled, bad, generation, committedHash)
    }

    /** For a readable file; NewEngine covers the other. */
    constructor (env: Env, globalExcludes: seq<string>, read: Read)
      requires !read.Unreadable?
      ensures Some(View()) == New(env, globalExcludes, read) && this.env == env
    {
      this.env, globals, project := env, globalExcludes, RulesOf(read);
      compiled, bad, generation, committedHash := None, [], 0, HashOf(env, read);
      new;
      RebuildMerged();
      if |bad| > 0 {
        var clean := [];
        for i := 0 to |project|
          invariant View() == Rebuilt(State(globalExcludes, RulesOf(read), None, [], 0, HashOf(env, read)), env)
          invariant clean == WithoutBad(project[..i], bad)
        {
          assert project[..i + 1][..i] == project[..i];
          if project[i] !in bad {
            clean := clean + [project[i]];
          }
        }
        assert project[..|project|] == project;
        project := clean;
        RebuildMerged();
      }
    }

    method RebuildMerged()
      modifies this`compiled, this`bad
      ensures View() == Rebuilt(old(View()), env)
    {
      var all := globals + project;
      if |all| > 0 {
        bad := FindBad(all);
        compiled := Some(all);
      } else {
        compiled := None;
      }
    }

    method FindBad(all: seq<string>) returns (found: seq<string>)
      ensures found == BadRules(env, all)
    {
      found := [];
      for i := 0 to |all|
        invariant found == BadRules(env, all[..i])
      {
        assert all[..i + 1][..i] == all[..i];
        if !env.compiles(all[i]) {
          found := found + [all[i]];
        }
      }
      assert all[..|all|] == all;
    }

    /** second is what the confirming read finds, if there is one. */
    method ReloadRules(first: Read, second: Read) returns (changed: bool)
      modifies this
      ensures View() == Reload(old(View()), env, first, second)
      ensures changed <==> project != old(project)
    {
      hide RulesOf, HashOf, BadRules, Shrinks;
      if first.Unreadable? {
        return false;
      }
      var newRules, newHash := RulesOf(first), HashOf(env, first);
      if newHash == committedHash {
        return false;
      }
      var badPatterns := FindBad(globals + newRules);
      if |badPatterns| > 0 {
        return false;
      }
      var shrinks := IsStrictSubset(newRules, project);
      if shrinks {
        if second.Unreadable? || HashOf(env, second) != newHash {
          return false;
        }
      }
      var oldRules := project;
      project, bad, committedHash := newRules, [], newHash;
      compiled := if |globals + newRules| > 0 then Some(globals + newRules) else None;
      changed := Differ(oldRules, newRules);
      if changed {
        generation := generation + 1;
      }
    }
  }

  /** Loading fails exactly for a file that cannot be read. */
  method NewEngine(env: Env, globalExcludes: seq<string>, read: Read) returns (e: Engine?)
    ensures e == null <==> read.Unreadable?
    ensures e == null ==> New(env, globalExcludes, read) == None
    ensures e != null ==> fresh(e) && e.env == env && New(env, globalExcludes, read) == Some(e.View())
  {
    if read.Unreadable? {
      return null;
    }
    e := new Engine(env, globalExcludes, read);
  }

  // ----- whole runs

  datatype Op = Op(first: Read, second: Read)

  function Run(s: State, env: Env, ops: seq<Op>): State {
    if ops == [] then s
    else Reload(Run(s, env, ops[..|ops| - 1]), env, ops[|ops| - 1].first, ops[|ops| - 1].second)
  }

  /** Every project rule compiles, the matcher in use is built from exactly the current rules, and bad
      patterns that are left over come from the globals unless there is no rule at all. */
  ghost predicate Valid(s: State, env: Env) {
    && (forall rule :: rule in s.project ==> env.compiles(rule))
    && s.compiled == (if s.globals + s.project == [] then None else Some(s.globals + s.project))
    && (s.globals + s.project != [] ==> s.bad == BadRules(env, s.globals + s.project))
  }

  lemma {:induction false} BadRulesExactly(env: Env, rules: seq<string>)
    ensures forall rule :: rule in BadRules(env, rules) <==> rule in rules && !env.compiles(rule)
  {
    if rules != [] {
      BadRulesExactly(env, rules[..|rules| - 1]);
      assert rules == rules[..|rules| - 1] + [rules[|rules| - 1]];
    }
  }

  ghost predicate AllCompile(env: Env, rules: seq<string>) {
    forall rule :: rule in rules ==> env.compiles(rule)
  }

  lemma {:induction false} NoBadRulesIff(env: Env, rules: seq<string>)
    ensures BadRules(env, rules) == [] <==> AllCompile(env, rules)
  {
    if rules != [] {
      NoBadRulesIff(env, rules[..|rules| - 1]);
      assert rules == rules[..|rules| - 1] + [rules[|rules| - 1]];
    }
  }

  lemma NewIsValid(env: Env, globals: seq<string>, read: Read)
    requires !read.Unreadable?
    ensures Valid(New(env, globals, read).value, env)
    ensures forall rule :: rule in New(env, globals, read).value.project
                           <==> rule in RulesOf(read) && env.compiles(rule)
  {
    var rules := RulesOf(read);
    BadRulesExactly(env, globals + rules);
    var bad := BadRules(env, globals + rules);
    WithoutIsSubset(rules, set r | r in bad);
    assert forall rule :: rule in globals + rules <==> rule in globals || rule in rules;
  }

  /** The engine reports bad patterns after New exactly when a global exclude does not compile, or when no
      rule is left at all because none of the project's compiles. */
  lemma HasBadAfterNewIff(env: Env, globals: seq<string>, read: Read)
    requires !read.Unreadable?
    ensures New(env, globals, read).value.bad != []
            <==> || (exists rule :: rule in globals && !env.compiles(rule))
                 || (globals == [] && RulesOf(read) != [] && forall rule :: rule in RulesOf(read) ==> !env.compiles(rule))
  {
    var rules := RulesOf(read);
    var all := globals + rules;
    BadRulesExactly(env, all);
    var clean := WithoutBad(rules, BadRules(env, all));
    WithoutIsSubset(rules, set r | r in BadRules(env, all));
    BadRulesExactly(env, globals + clean);
    assert forall rule :: rule in all <==> rule in globals || rule in rules;
    assert forall rule :: rule in globals + clean <==> rule in globals || rule in clean;
    var s := New(env, globals, read).value;
    if s.bad != [] {
      assert s.bad[0] in s.bad;
    }
    if rules != [] { assert rules[0] in rules; }
    if clean != [] { assert clean[0] in clean; }
    if globals != [] { assert globals[0] in globals; }
  }

  lemma ReloadKeepsValid(s: State, env: Env, first: Read, second: Read)
    requires Valid(s, env)
    ensures Valid(Reload(s, env, first, second), env)
  {
    if Commits(s, env, first, second) {
      BadRulesExactly(env, s.globals + RulesOf(first));
      assert forall rule :: rule in RulesOf(first) ==> rule in s.globals + RulesOf(first);
    }
  }

  /** In every run of reloads, every project rule compiles and the matcher is that of the current rules. */
  lemma {:induction false} AlwaysValid(env: Env, globals: seq<string>, read: Read, ops: seq<Op>)
    requires !read.Unreadable?
    ensures Valid(Run(New(env, globals, read).value, env, ops), env)
    decreases |ops|
  {
    if ops == [] {
      NewIsValid(env, globals, read);
    } else {
      AlwaysValid(env, globals, read, ops[..|ops| - 1]);
      ReloadKeepsValid(Run(New(env, globals, read).value, env, ops[..|ops| - 1]), env, ops[|ops| - 1].first, ops[|ops| - 1].second);
    }
  }

  /** The generation never decreases, and two moments of a run with the same generation have the same
      rules. */
  lemma {:induction false} SameGenerationSameRules(s: State, env: Env, ops: seq<Op>)
    ensures Run(s, env, ops).generation >= s.generation
    ensures Run(s, env, ops).generation == s.generation ==> Run(s, env, ops).project == s.project
    decreases |ops|
  {
    if ops != [] { SameGenerationSameRules(s, env, ops[..|ops| - 1]); }
  }

  /** At every step of every run: if the rules become a proper part of what they were, none added, then a
      second read has found the same content hash as the first. */
  lemma ShrinkNeedsTwoReads(s: State, env: Env, ops: seq<Op>, i: nat)
    requires i < |ops|
    requires Shrinks(Run(s, env, ops[..i]).project, Run(s, env, ops[..i + 1]).project)
    ensures var op := ops[i];
            && !op.first.Unreadable? && !op.second.Unreadable?
            && HashOf(env, op.first) == HashOf(env, op.second) == Run(s, env, ops[..i + 1]).committedHash
  {
    assert ops[..i + 1][..i] == ops[..i];
  }

  // ----- a reload takes effect

  /** The guard: the content is new and compiles, and if it only takes rules away a second read confirms it. */
  predicate TakesEffect(s: State, env: Env, op: Op) {
    && !op.first.Unreadable? && HashOf(env, op.first) != s.committedHash
    && BadRules(env, s.globals + RulesOf(op.first)) == []
    && (multiset(RulesOf(op.first)) < multiset(s.project) ==>
          !op.second.Unreadable? && HashOf(env, op.second) == HashOf(env, op.first))
  }

  /** The rules of the read are in force, and nothing else is. */
  predicate InForce(s: State, globals: seq<string>, rules: seq<string>) {
    && s.globals == globals && s.project == rules && s.bad == []
    && s.compiled == if globals + rules == [] then None else Some(globals + rules)
  }

  /** At the end of any run, one more reload puts the rules it reads in force exactly under the guard, and
      otherwise changes nothing. */
  lemma ReloadTakesEffectIff(s: State, env: Env, ops: seq<Op>, op: Op)
    ensures var before, after := Run(s, env, ops), Run(s, env, ops + [op]);
            if TakesEffect(before, env, op) then
              && InForce(after, before.globals, RulesOf(op.first))
              && after.committedHash == HashOf(env, op.first) && after != before
            else after == before
  {
    assert (ops + [op])[..|ops|] == ops;
    hide RulesOf, HashOf, BadRules;
  }

  /** A content that takes no rule away is in force after one read, whatever a second one finds. */
  lemma AddedRulesAreInForce(s: State, env: Env, ops: seq<Op>, first: Read, second: Read)
    requires !first.Unreadable? && HashOf(env, first) != Run(s, env, ops).committedHash
    requires BadRules(env, Run(s, env, ops).globals + RulesOf(first)) == []
    requires multiset(Run(s, env, ops).project) <= multiset(RulesOf(first))
    ensures InForce(Run(s, env, ops + [Op(first, second)]), Run(s, env, ops).globals, RulesOf(first))
  {
    ReloadTakesEffectIff(s, env, ops, Op(first, second));
    hide RulesOf, HashOf, BadRules, Run;
  }

  /** What a read counts as: no file counts as an empty one. */
  function TextOf(read: Read): string
    requires !read.Unreadable?
  {
    if read.NoFile? then "" else read.text
  }

  lemma RulesOfText(read: Read)
    requires !read.Unreadable?
    ensures RulesOf(read) == ParseRules(TextOf(read))
  {
    assert Split("") == [""] && StripBOM("") == "";
    assert RuleOfLine("") == "" && RulesOfLines([""][..0]) == [];
  }

  /** The committed hash is that of a content whose rules, if they compile with the globals, are in force. */
  ghost predicate Follows(s: State, env: Env, text: string) {
    && s.committedHash == env.hash(text)
    && (AllCompile(env, s.globals + ParseRules(text)) ==> InForce(s, s.globals, ParseRules(text)))
  }

  /** Loading a file whose rules all compile with the globals. */
  lemma Loaded(env: Env, globals: seq<string>, read: Read)
    requires !read.Unreadable? && AllCompile(env, globals + RulesOf(read))
    ensures var all := globals + RulesOf(read);
            New(env, globals, read)
            == Some(State(globals, RulesOf(read), if all == [] then None else Some(all), [], 0, HashOf(env, read)))
  {
    NoBadRulesIff(env, globals + RulesOf(read));
    hide ParseRules, BadRules, AllCompile, WithoutBad;
  }

  lemma LoadedFrom(env: Env, globals: seq<string>, read: Read)
    requires !read.Unreadable?
    ensures New(env, globals, read).Some?
    ensures New(env, globals, read).value.committedHash == HashOf(env, read) && New(env, globals, read).value.globals == globals
  {
    hide ParseRules, BadRules, WithoutBad;
  }

  lemma NewFollows(env: Env, globals: seq<string>, read: Read)
    requires !read.Unreadable?
    ensures Follows(New(env, globals, read).value, env, TextOf(read))
    ensures New(env, globals, read).value.globals == globals
  {
    RulesOfText(read);
    LoadedFrom(env, globals, read);
    if AllCompile(env, globals + RulesOf(read)) { Loaded(env, globals, read); }
    hide New, ParseRules, AllCompile;
  }

  lemma {:induction false} RunFollows(env: Env, globals: seq<string>, read: Read, ops: seq<Op>) returns (text: string)
    requires !read.Unreadable?
    ensures var s := Run(New(env, globals, read).value, env, ops);
            Follows(s, env, text) && s.globals == globals
    decreases |ops|
  {
    if ops == [] {
      NewFollows(env, globals, read);
      text := TextOf(read);
    } else {
      var prefix, op := ops[..|ops| - 1], ops[|ops| - 1];
      text := RunFollows(env, globals, read, prefix);
      assert ops == prefix + [op];
      var start := New(env, globals, read).value;
      ReloadTakesEffectIff(start, env, prefix, op);
      if TakesEffect(Run(start, env, prefix), env, op) {
        RulesOfText(op.first);
        text := TextOf(op.first);
      }
      hide Run, New, RulesOf, BadRules, ParseRules, AllCompile, InForce;
    }
  }

  /** A reload that finds the same content twice, all of whose rules compile with the globals, puts exactly
      that content in force, whatever was loaded and reloaded before, as long as different contents have
      different hashes. */
  lemma ReloadsConverge(env: Env, globals: seq<string>, read: Read, ops: seq<Op>, content: Read)
    requires !read.Unreadable? && !content.Unreadable? && AllCompile(env, globals + RulesOf(content))
    requires forall a, b :: env.hash(a) == env.hash(b) ==> a == b
    ensures InForce(Run(New(env, globals, read).value, env, ops + [Op(content, content)]), globals, RulesOf(content))
  {
    var start, op := New(env, globals, read).value, Op(content, content);
    var text := RunFollows(env, globals, read, ops);
    ReloadTakesEffectIff(start, env, ops, op);
    NoBadRulesIff(env, globals + RulesOf(content));
    RulesOfText(content);
    hide Run, New, RulesOf, BadRules, ParseRules, AllCompile, InForce;
  }

  /** The generation counts the steps of a run that changed the rules. */
  lemma {:induction false} GenerationCountsChanges(s: State, env: Env, ops: seq<Op>)
    ensures Run(s, env, ops).generation == s.generation + Changes(s, env, ops)
    decreases |ops|
  {
    hide RulesOf, HashOf, BadRules, Commits;
    if ops != [] { GenerationCountsChanges(s, env, ops[..|ops| - 1]); }
  }

  function Changes(s: State, env: Env, ops: seq<Op>): nat {
    if ops == [] then 0
    else
      var prefix := ops[..|ops| - 1];
      Changes(s, env, prefix) + if Run(s, env, prefix).project != Run(s, env, ops).project then 1 else 0
  }

  /** The rules that compile, in order. */
  function Compiling(env: Env, rules: seq<string>): seq<string> {
    if rules == [] then []
    else
      var last := rules[|rules| - 1];
      Compiling(env, rules[..|rules| - 1]) + if env.compiles(last) then [last] else []
  }

  lemma {:induction false} WithoutBadIsCompiling(env: Env, rules: seq<string>, bad: set<string>)
    requires forall rule :: rule in rules ==> (rule in bad <==> !env.compiles(rule))
    ensures Without(rules, bad) == Compiling(env, rules)
  {
    if rules != [] {
      WithoutBadIsCompiling(env, rules[..|rules| - 1], bad);
      assert rules[|rules| - 1] in rules;
    }
  }

  lemma {:induction false} AllAreCompiling(env: Env, rules: seq<string>)
    requires AllCompile(env, rules)
    ensures Compiling(env, rules) == rules
  {
    if rules != [] {
      AllAreCompiling(env, rules[..|rules| - 1]);
      assert rules == rules[..|rules| - 1] + [rules[|rules| - 1]];
    }
  }

  /** Loading keeps exactly the rules of the file that compile, in their order, whatever the globals. */
  lemma NewKeepsCompiling(env: Env, globals: seq<string>, read: Read)
    requires !read.Unreadable?
    ensures New(env, globals, read).value.project == Compiling(env, RulesOf(read))
  {
    var rules := RulesOf(read);
    var bad := BadRules(env, globals + rules);
    BadRulesExactly(env, globals + rules);
    NoBadRulesIff(env, globals + rules);
    assert forall rule :: rule in rules ==> rule in globals + rules;
    if bad == [] {
      AllAreCompiling(env, rules);
    } else {
      WithoutBadIsCompiling(env, rules, set r | r in bad);
    }
    hide ParseRules, BadRules, Compiling, Without;
  }

  // ----- rules never shrink due to transient file states

  predicate DropsRules(before: seq<string>, after: seq<string>) {
    !(multiset(before) <= multiset(after))
  }

  /** A rule goes on the word of one read: it would go even if a second read failed. */
  predicate DropsOnOneRead(s: State, env: Env, first: Read) {
    DropsRules(s.project, Reload(s, env, first, Unreadable).project)
  }

  /** The guard: the content is new and compiles, and takes a rule away but also brings one, so that it
      does not look truncated. */
  predicate Rewrites(s: State, env: Env, first: Read) {
    && !first.Unreadable? && HashOf(env, first) != s.committedHash
    && BadRules(env, s.globals + RulesOf(first)) == []
    && DropsRules(s.project, RulesOf(first)) && DropsRules(RulesOf(first), s.project)
  }

  /** Exactly when one read is enough to lose a rule. */
  lemma DropsOnOneReadIff(s: State, env: Env, first: Read)
    ensures DropsOnOneRead(s, env, first) <==> Rewrites(s, env, first)
  {
    hide RulesOf, HashOf, BadRules;
  }

  /** The guard for a loss that a second read has confirmed. */
  predicate ConfirmedShrink(s: State, env: Env, op: Op) {
    && !op.first.Unreadable? && !op.second.Unreadable?
    && s.committedHash != HashOf(env, op.first) == HashOf(env, op.second)
    && BadRules(env, s.globals + RulesOf(op.first)) == [] && Shrinks(s.project, RulesOf(op.first))
  }

  /** At every step of every run: a rule is lost exactly under one of the two guards. */
  lemma LossAtStepIff(s: State, env: Env, ops: seq<Op>, i: nat)
    requires i < |ops|
    ensures var before := Run(s, env, ops[..i]);
            DropsRules(before.project, Run(s, env, ops[..i + 1]).project)
            <==> Rewrites(before, env, ops[i].first) || ConfirmedShrink(before, env, ops[i])
  {
    hide RulesOf, HashOf, BadRules;
    assert ops[..i + 1][..i] == ops[..i];
  }

  /** If the step loses a rule, two equal reads have said so. */
  predicate LossIsConfirmed(s: State, env: Env, op: Op) {
    DropsRules(s.project, Reload(s, env, op.first, op.second).project) ==> ConfirmedShrink(s, env, op)
  }

  lemma LossIsConfirmedIff(s: State, env: Env, op: Op)
    ensures LossIsConfirmed(s, env, op) <==> !Rewrites(s, env, op.first)
  {
    hide RulesOf, HashOf, BadRules;
    LossAtStepIff(s, env, [op], 0);
    assert [op][..0] == [] && [op][..1] == [op];
  }

  ghost predicate LossesConfirmed(s: State, env: Env, ops: seq<Op>) {
    forall i :: 0 <= i < |ops| ==> LossIsConfirmed(Run(s, env, ops[..i]), env, ops[i])
  }

  ghost predicate NeverRewrites(s: State, env: Env, ops: seq<Op>) {
    forall i :: 0 <= i < |ops| ==> !Rewrites(Run(s, env, ops[..i]), env, ops[i].first)
  }

  /** A run loses rules only on the word of two equal reads exactly if the guard never holds in it. */
  lemma LossesConfirmedIff(s: State, env: Env, ops: seq<Op>)
    ensures LossesConfirmed(s, env, ops) <==> NeverRewrites(s, env, ops)
  {
    hide LossIsConfirmed, Rewrites, Run;
    forall i | 0 <= i < |ops|
      ensures LossIsConfirmed(Run(s, env, ops[..i]), env, ops[i]) <==> !Rewrites(Run(s, env, ops[..i]), env, ops[i].first)
    {
      LossIsConfirmedIff(Run(s, env, ops[..i]), env, ops[i]);
    }
  }

  lemma CommonPart(a: seq<string>, b: seq<string>, c: seq<string>)
    ensures DropsRules(a + b, a + c) <==> DropsRules(b, c)
  {
    assert multiset(a + b) == multiset(a) + multiset(b) && multiset(a + c) == multiset(a) + multiset(c);
    if multiset(a + b) <= multiset(a + c) {
      forall x ensures multiset(b)[x] <= multiset(c)[x] {
        assert multiset(a + b)[x] <= multiset(a + c)[x];
      }
    }
  }

  /** The first k rules, with a stub after them, against all the rules. */
  lemma StubIncludes(full: seq<string>, k: nat, stub: seq<string>)
    requires k <= |full| && |stub| <= 1
    ensures DropsRules(full[..k] + stub, full) <==> stub != [] && stub[0] !in full[k..]
    ensures DropsRules(full, full[..k] + stub) <==> full[k..] != [] && full[k..] != stub
  {
    var kept, lost := full[..k], full[k..];
    assert full == kept + lost;
    CommonPart(kept, stub, lost);
    CommonPart(kept, lost, stub);
    if stub != [] { assert stub == [stub[0]]; }
    if lost != [] { assert lost == [lost[0]] + lost[1..]; }
    if |lost| > 1 && multiset(lost) <= multiset(stub) {
      IncludedIsNoLonger(lost, stub);
      assert false;
    }
  }

  /** Of a file that a reload finds cut off, with the first k rules and perhaps the stub of one more, rules
      are lost on one read exactly if there is a stub that compiles and is none of the rules cut off. */
  lemma CutFileLosesRulesIff(s: State, env: Env, text: string, n: nat, k: nat, stub: seq<string>)
    requires n <= |text| && s.project == ParseRules(text) && k <= |s.project| && |stub| <= 1
    requires ParseRules(text[..n]) == s.project[..k] + stub
    ensures DropsOnOneRead(s, env, Content(text[..n]))
            <==> && env.hash(text[..n]) != s.committedHash
                 && BadRules(env, s.globals + s.project[..k] + stub) == []
                 && k < |s.project| && stub != [] && stub[0] !in s.project[k..]
  {
    DropsOnOneReadIff(s, env, Content(text[..n]));
    StubIncludes(s.project, k, stub);
    assert s.globals + (s.project[..k] + stub) == s.globals + s.project[..k] + stub;
    hide ParseRules, BadRules, DropsRules, DropsOnOneRead;
  }

  const UNCUT: string := "*.log\ntmp/"

  /** For example, a file read while three of its characters have been written, from the state that loading
      the whole file gives. */
  lemma CutRuleIsCommitted(env: Env, second: Read)
    requires env.compiles("*.log") && env.compiles("tmp/") && env.compiles("*.l")
    requires env.hash("*.l") != env.hash(UNCUT)
    ensures var s := New(env, [], Content(UNCUT)).value;
            && s.project == ["*.log", "tmp/"]
            && Run(s, env, [Op(Content("*.l"), second)]).project == ["*.l"]
  {
    UncutRules();
    var full, cut := ["*.log", "tmp/"], ["*.l"];
    hide ParseRules;
    assert [] + full == full;
    Loaded(env, [], Content(UNCUT));
    hide New;
    var s := State([], full, Some(full), [], 0, env.hash(UNCUT));
    NoBadRulesIff(env, cut);
    assert [] + cut == cut;
    NewRuleIsNoShrinking(full, "*.l");
    hide BadRules, Shrinks;
    var op := Op(Content("*.l"), second);
    assert [op][..0] == [] && Run(s, env, []) == s;
    assert Run(s, env, [op]) == Reload(s, env, op.first, op.second);
  }

  lemma UncutRules()
    ensures ParseRules(UNCUT) == ["*.log", "tmp/"] && ParseRules("*.l") == ["*.l"]
  {
    assert UNCUT == "*.log" + "\n" + "tmp/";
    assert IsPlainRule("*.log") && IsPlainRule("tmp/") && IsPlainRule("*.l");
    hide ParseRules, IsPlainRule;
    TwoPlainRules("*.log", "tmp/");
    OnePlainRule("*.l");
  }

  lemma NewRuleIsNoShrinking(before: seq<string>, rule: string)
    requires rule !in before
    ensures !Shrinks(before, [rule])
  {
    assert multiset([rule])[rule] == 1 && multiset(before)[rule] == 0;
  }
}
