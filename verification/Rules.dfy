/** The hook and ignore rules of `xh_core.c`: which pathnames a refresh selects, and which rules are
    hooked in a selected one. A compiled regular expression is the set of pathnames it matches. */
module Rules {
  import opened Pathname
  import opened Results

  type Regex = Path -> bool

  /** `old_func` is the address the old function pointer goes to. */
  datatype HookRule = HookRule(regex: Regex, symbol: Path, newFunc: int, oldFunc: int)

  /** No symbol means every symbol. */
  datatype IgnoreRule = IgnoreRule(regex: Regex, symbol: Option<Path>)

  predicate Covers(ii: IgnoreRule, path: Path, symbol: Path) {
    ii.regex(path) && (ii.symbol.None? || ii.symbol.value == symbol)
  }

  /** Some ignore rule keeps `symbol` of `path` unhooked. */
  ghost predicate Ignored(ignores: seq<IgnoreRule>, path: Path, symbol: Path) {
    exists j :: 0 <= j < |ignores| && Covers(ignores[j], path, symbol)
  }

  /** The rules to hook in `path`, in registration order. */
  ghost function Targets(rules: seq<HookRule>, ignores: seq<IgnoreRule>, path: Path): seq<HookRule> {
    if rules == [] then []
    else
      var r := rules[|rules| - 1];
      Targets(rules[..|rules| - 1], ignores, path) +
      if r.regex(path) && !Ignored(ignores, path, r.symbol) then [r] else []
  }

  /** `i` is the first rule whose regular expression matches `path`. */
  ghost predicate FirstMatch(rules: seq<HookRule>, path: Path, i: int) {
    0 <= i < |rules| && rules[i].regex(path) && forall k :: 0 <= k < i ==> !rules[k].regex(path)
  }

  /** A refresh looks at `path` at all. */
  ghost predicate Selected(rules: seq<HookRule>, ignores: seq<IgnoreRule>, path: Path) {
    exists i :: FirstMatch(rules, path, i) && !Ignored(ignores, path, rules[i].symbol)
  }

  /** The check of a pathname during a refresh: the first rule that matches decides. */
  method Check(rules: seq<HookRule>, ignores: seq<IgnoreRule>, path: Path) returns (matched: bool)
    ensures matched <==> Selected(rules, ignores, path)
  {
    matched := false;
    for h := 0 to |rules|
      invariant !matched
      invariant forall k :: 0 <= k < h ==> !rules[k].regex(path)
    {
      if rules[h].regex(path) {
        assert FirstMatch(rules, path, h);
        for i := 0 to |ignores|
          invariant forall j :: 0 <= j < i ==> !Covers(ignores[j], path, rules[h].symbol)
        {
          if ignores[i].regex(path) {
            if ignores[i].symbol.None? {
              assert Covers(ignores[i], path, rules[h].symbol);
              return;
            }
            CmpEqual(ignores[i].symbol.value, rules[h].symbol);
            if Cmp(ignores[i].symbol.value, rules[h].symbol) == 0 {
              assert Covers(ignores[i], path, rules[h].symbol);
              return;
            }
          }
        }
        matched := true;
        return;
      }
    }
  }

  /** The rules a hook of `path` calls `xh_elf_hook` for, unless the image cannot be read (`initOk`). */
  method HookImpl(rules: seq<HookRule>, ignores: seq<IgnoreRule>, path: Path, initOk: bool)
    returns (calls: seq<HookRule>)
    ensures calls == if initOk then Targets(rules, ignores, path) else []
  {
    calls := [];
    if !initOk {
      return;
    }
    for h := 0 to |rules|
      invariant calls == Targets(rules[..h], ignores, path)
    {
      assert rules[..h + 1][..h] == rules[..h];
      if rules[h].regex(path) {
        var ignore := false;
        for i := 0 to |ignores|
          invariant !ignore
          invariant forall j :: 0 <= j < i ==> !Covers(ignores[j], path, rules[h].symbol)
        {
          if ignores[i].regex(path) {
            if ignores[i].symbol.None? {
              CoveredByAll(rules[..h], ignores, path, i);
              CoveredByAll(rules, ignores, path, i);
              return;
            }
            CmpEqual(ignores[i].symbol.value, rules[h].symbol);
            if Cmp(ignores[i].symbol.value, rules[h].symbol) == 0 {
              assert Covers(ignores[i], path, rules[h].symbol);
              ignore := true;
              break;
            }
          }
        }
        if !ignore {
          calls := calls + [rules[h]];
        }
      }
    }
    assert rules[..|rules|] == rules;
  }

  /** An ignore rule for all symbols leaves nothing to hook. */
  lemma {:induction false} CoveredByAll(rules: seq<HookRule>, ignores: seq<IgnoreRule>, path: Path, i: nat)
    requires i < |ignores| && ignores[i].regex(path) && ignores[i].symbol.None?
    ensures Targets(rules, ignores, path) == []
  {
    if rules != [] {
      var r := rules[|rules| - 1];
      assert Covers(ignores[i], path, r.symbol);
      CoveredByAll(rules[..|rules| - 1], ignores, path, i);
    }
  }

  /** Exactly the matching rules that no ignore rule covers are hooked. */
  lemma {:induction false} TargetsExact(rules: seq<HookRule>, ignores: seq<IgnoreRule>, path: Path, r: HookRule)
    ensures r in Targets(rules, ignores, path) <==> r in rules && r.regex(path) && !Ignored(ignores, path, r.symbol)
  {
    if rules != [] {
      var n := |rules| - 1;
      TargetsExact(rules[..n], ignores, path, r);
      assert rules == rules[..n] + [rules[n]];
    }
  }

  /** The order of the ignore rules, and their repetition, does not matter. */
  lemma {:induction false} TargetsIgnoreOrder(rules: seq<HookRule>, ignores: seq<IgnoreRule>,
                                              ignores': seq<IgnoreRule>, path: Path)
    requires forall ii :: ii in ignores <==> ii in ignores'
    ensures Targets(rules, ignores, path) == Targets(rules, ignores', path)
  {
    if rules != [] {
      var r := rules[|rules| - 1];
      TargetsIgnoreOrder(rules[..|rules| - 1], ignores, ignores', path);
      if Ignored(ignores, path, r.symbol) {
        var j :| 0 <= j < |ignores| && Covers(ignores[j], path, r.symbol);
        assert ignores[j] in ignores';
      }
      if Ignored(ignores', path, r.symbol) {
        var j :| 0 <= j < |ignores'| && Covers(ignores'[j], path, r.symbol);
        assert ignores'[j] in ignores;
      }
    }
  }

  lemma {:induction false} SomeFirstMatch(rules: seq<HookRule>, path: Path, n: nat) returns (i: nat)
    requires n < |rules| && rules[n].regex(path)
    ensures FirstMatch(rules, path, i) && i <= n
  {
    if k: nat :| k < n && rules[k].regex(path) {
      i := SomeFirstMatch(rules, path, k);
    } else {
      i := n;
    }
  }

  /** A refresh misses a pathname that has something to hook exactly when the first rule that matches
      it is covered by an ignore rule; otherwise it selects the pathname exactly when there is something to hook. */
  lemma {:induction false} SelectedExact(rules: seq<HookRule>, ignores: seq<IgnoreRule>, path: Path)
    ensures Selected(rules, ignores, path) <==>
      Targets(rules, ignores, path) != [] &&
      !exists i :: FirstMatch(rules, path, i) && Ignored(ignores, path, rules[i].symbol)
  {
    var ts := Targets(rules, ignores, path);
    if Selected(rules, ignores, path) {
      var i :| FirstMatch(rules, path, i) && !Ignored(ignores, path, rules[i].symbol);
      TargetsExact(rules, ignores, path, rules[i]);
      assert rules[i] in ts;
    }
    if ts != [] {
      TargetsExact(rules, ignores, path, ts[0]);
      var n :| 0 <= n < |rules| && rules[n] == ts[0];
      var i := SomeFirstMatch(rules, path, n);
      assert FirstMatch(rules, path, i);
    }
  }

  /** Two rules for one path, the first one ignored: the second is never hooked, because the path is not selected. */
  lemma SelectedTooNarrow() returns (rules: seq<HookRule>, ignores: seq<IgnoreRule>, path: Path)
    ensures Targets(rules, ignores, path) != [] && !Selected(rules, ignores, path)
    ensures forall rule <- rules :: rule.newFunc != 0
  {
    path := [1];
    var any: Regex := (_: Path) => true;
    var r0, r1 := HookRule(any, [2], 1, 0), HookRule(any, [3], 1, 0);
    rules, ignores := [r0, r1], [IgnoreRule(any, Some([2]))];
    assert Covers(ignores[0], path, r0.symbol);
    TargetsExact(rules, ignores, path, r1);
    assert rules[1] == r1;
    SelectedExact(rules, ignores, path);
    assert FirstMatch(rules, path, 0) && Ignored(ignores, path, rules[0].symbol);
  }
}
