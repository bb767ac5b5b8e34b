/** `pickReReplace` and `pickRe` of main.go: keep the entries of a string
    map whose key a regular expression matches, re-keyed by a replacement.

    The regular expression engine is a library outside this model. A
    pattern is given as the outcome of compiling it: `None` when it does
    not compile, otherwise a `Regexp` whose two operations are left
    uninterpreted. */
module Pick {
  import opened Wrappers

  /** A compiled regular expression, through the two operations used here:
      `matchString(k)` and `replaceAllString(k, repl)`. */
  datatype Regexp = Regexp(
    matchString: string -> bool,
    replaceAllString: (string, string) -> string)

  /** `res` is a result the loop over `dict` may produce: every matching
      key's rewritten form is a key of `res`, and every key of `res` is the
      rewritten form of a matching key of `dict` and carries that key's
      value. When two matching keys rewrite to the same key, either value
      may survive, depending on the map's iteration order. */
  ghost predicate Picked(dict: map<string, string>, re: Regexp, repl: string, res: map<string, string>)
  {
    (forall k :: k in dict && re.matchString(k) ==> re.replaceAllString(k, repl) in res) &&
    (forall k' :: k' in res ==>
      exists k :: k in dict && re.matchString(k) && re.replaceAllString(k, repl) == k' && res[k'] == dict[k])
  }

  /** Go's `$0` names the whole match, so replacing every match by `$0`
      leaves a string as it was. */
  ghost predicate KeepsWholeMatch(re: Regexp)
  {
    forall k :: re.matchString(k) ==> re.replaceAllString(k, "$0") == k
  }

  /** No two matching keys of `dict` rewrite to the same key. */
  ghost predicate NoCollisions(dict: map<string, string>, re: Regexp, repl: string)
  {
    forall k1, k2 ::
      k1 in dict && k2 in dict && re.matchString(k1) && re.matchString(k2) &&
      re.replaceAllString(k1, repl) == re.replaceAllString(k2, repl)
      ==> k1 == k2
  }

  /** `pickReReplace`: a fresh map of the matching entries of `dict`, each
      re-keyed by `replaceAllString(k, repl)`; empty when the pattern does
      not compile. `dict` itself is a value and is left as it was. */
  method PickReReplace(dict: map<string, string>, compiled: Option<Regexp>, repl: string)
    returns (res: map<string, string>)
    ensures compiled.None? ==> res == map[]
    ensures compiled.Some? ==> Picked(dict, compiled.value, repl, res)
    ensures |res| <= |dict|
  {
    res := map[];
    if compiled.None? {
      return;
    }
    var re := compiled.value;
    var todo := dict.Keys;
    while todo != {}
      invariant todo <= dict.Keys
      invariant forall k :: k in dict && k !in todo && re.matchString(k) ==> re.replaceAllString(k, repl) in res
      invariant forall k' :: k' in res ==>
        exists k :: k in dict && k !in todo && re.matchString(k) && re.replaceAllString(k, repl) == k' && res[k'] == dict[k]
      invariant |res| <= |dict.Keys - todo|
      decreases todo
    {
      // Go visits the keys in an unspecified order: any remaining key may come next.
      var k :| k in todo;
      if re.matchString(k) {
        res := res[re.replaceAllString(k, repl) := dict[k]];
      }
      assert dict.Keys - (todo - {k}) == (dict.Keys - todo) + {k};
      todo := todo - {k};
    }
  }

  /** `pickRe`: `pickReReplace` with the replacement `$0`. When `$0`
      rewrites every key to itself, the result is exactly the matching
      entries of `dict`. */
  method PickRe(dict: map<string, string>, compiled: Option<Regexp>) returns (res: map<string, string>)
    ensures compiled.None? ==> res == map[]
    ensures compiled.Some? ==> Picked(dict, compiled.value, "$0", res)
    ensures compiled.Some? && KeepsWholeMatch(compiled.value) ==>
      res == map k | k in dict && compiled.value.matchString(k) :: dict[k]
    ensures |res| <= |dict|
  {
    res := PickReReplace(dict, compiled, "$0");
    if compiled.Some? && KeepsWholeMatch(compiled.value) {
      PickedWholeMatchIsFilter(dict, compiled.value, res);
    }
  }

  /** With `$0`, the picked map is the restriction of `dict` to the
      matching keys. */
  lemma PickedWholeMatchIsFilter(dict: map<string, string>, re: Regexp, res: map<string, string>)
    requires KeepsWholeMatch(re)
    requires Picked(dict, re, "$0", res)
    ensures res == map k | k in dict && re.matchString(k) :: dict[k]
  {
  }

  /** Iteration order matters only through collisions: when no two
      matching keys rewrite to the same key, the result is determined. */
  lemma PickedIsUniqueWithoutCollisions(
    dict: map<string, string>, re: Regexp, repl: string, res1: map<string, string>, res2: map<string, string>)
    requires NoCollisions(dict, re, repl)
    requires Picked(dict, re, repl, res1) && Picked(dict, re, repl, res2)
    ensures res1 == res2
  {
  }
}
