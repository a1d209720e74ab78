/**
 * Multi-pattern matching with Aho-Corasick, as in
 * StringMatch.find(String[] patterns, String text): a trie is grown in a
 * list of per-state transition maps with a per-state output set, the root is
 * made total over the characters 0..C-1, suffix links and output sets are
 * completed in breadth-first order, and the text is scanned once.
 *
 * Ghost state: `path[s]` is the string spelled by the trie path from the root
 * to state s, and `stateOf` is its inverse; its keys are exactly the prefixes
 * of the patterns.
 */
module AhoCorasick {
  import opened StringSpec

  /** Number of characters the root is completed over (0..C-1). */
  const C: int := 255

  /** Every pattern is non-empty and uses only characters below C. */
  ghost predicate ValidPatterns(patterns: seq<string>)
  {
    forall w :: 0 <= w < |patterns| ==> |patterns[w]| >= 1 && InAlphabet(patterns[w])
  }

  predicate InAlphabet(s: string)
  {
    forall t :: 0 <= t < |s| ==> (s[t] as int) < C
  }

  /** The empty string and every prefix of the first `count` patterns. */
  ghost function PrefixesOf(patterns: seq<string>, count: nat): set<string>
    requires count <= |patterns|
  {
    {[]} + set w, l | 0 <= w < count && 0 <= l <= |patterns[w]| :: patterns[w][..l]
  }

  /** The first `j` + 1 prefixes of `word`. */
  ghost function WordPrefixes(word: string, j: nat): set<string>
    requires j <= |word|
  {
    set l | 0 <= l <= j :: word[..l]
  }

  /** The states: labels are distinct, `stateOf` is their inverse, and the path set is prefix-closed. */
  ghost predicate States(path: seq<string>, stateOf: map<string, int>)
  {
    |path| >= 1 && path[0] == [] &&
    (forall s :: 0 <= s < |path| ==> path[s] in stateOf && stateOf[path[s]] == s) &&
    (forall u :: u in stateOf ==> 0 <= stateOf[u] < |path| && path[stateOf[u]] == u) &&
    (forall u :: u in stateOf && |u| > 0 ==> u[..|u| - 1] in stateOf)
  }

  /** States numbered `from` and above have exactly the trie edges: c leads from s to the state of path[s] + [c]. */
  ghost predicate TrieEdges(transition: seq<map<char, int>>, path: seq<string>, stateOf: map<string, int>, from: nat)
    requires |transition| == |path|
  {
    (forall s, c :: from <= s < |path| ==> (c in transition[s] <==> path[s] + [c] in stateOf)) &&
    (forall s, c :: from <= s < |path| && c in transition[s] ==> transition[s][c] == stateOf[path[s] + [c]])
  }

  /** The trie as built: every state has exactly its trie edges. */
  ghost predicate IsTrie(transition: seq<map<char, int>>, path: seq<string>, stateOf: map<string, int>)
  {
    |transition| == |path| && States(path, stateOf) && TrieEdges(transition, path, stateOf, 0)
  }

  /** Patterns whose text equals `u`: the output set of u's state right after the trie is built. */
  ghost function Own(patterns: seq<string>, count: nat, u: string): set<int>
  {
    set w | 0 <= w < count && w < |patterns| && patterns[w] == u
  }

  /** Adding the state for path[cur] + [c] keeps the trie shape. */
  lemma AddState(transition: seq<map<char, int>>, path: seq<string>, stateOf: map<string, int>, cur: int, c: char)
    requires IsTrie(transition, path, stateOf) && 0 <= cur < |path|
    requires path[cur] + [c] !in stateOf
    ensures var t := |transition|;
            IsTrie(transition[cur := transition[cur][c := t]] + [map[]], path + [path[cur] + [c]],
                   stateOf[path[cur] + [c] := t])
  {
    AddStateLabels(path, stateOf, cur, c);
    AddStateEdges(transition, path, stateOf, cur, c);
    AddStateTargets(transition, path, stateOf, cur, c);
  }

  /** The new label path[cur] + [c] keeps the labels distinct and prefix-closed. */
  lemma AddStateLabels(path: seq<string>, stateOf: map<string, int>, cur: int, c: char)
    requires States(path, stateOf) && 0 <= cur < |path|
    requires path[cur] + [c] !in stateOf
    ensures States(path + [path[cur] + [c]], stateOf[path[cur] + [c] := |path|])
  {
    var u := path[cur] + [c];
    assert u[..|u| - 1] == path[cur];
  }

  /** After adding the state, each state has an edge by c' exactly when its label extended by c' is a state. */
  lemma AddStateEdges(transition: seq<map<char, int>>, path: seq<string>, stateOf: map<string, int>, cur: int, c: char)
    requires IsTrie(transition, path, stateOf) && 0 <= cur < |path|
    requires path[cur] + [c] !in stateOf
    ensures var t := |transition|;
            var transition', path' := transition[cur := transition[cur][c := t]] + [map[]], path + [path[cur] + [c]];
            forall s, c' :: 0 <= s < |path'| ==> (c' in transition'[s] <==> path'[s] + [c'] in stateOf[path[cur] + [c] := t])
  {
    var t := |transition|;
    var u := path[cur] + [c];
    var transition' := transition[cur := transition[cur][c := t]] + [map[]];
    var path' := path + [u];
    var stateOf' := stateOf[u := t];
    assert u[..|u| - 1] == path[cur];
    forall s, c' | 0 <= s < |path'|
      ensures c' in transition'[s] <==> path'[s] + [c'] in stateOf'
    {
      if s == t {
        var v := u + [c'];
        assert v[..|v| - 1] == u;
      } else if path[s] + [c'] == u {
        assert path[s] == (path[s] + [c'])[..|path[s]|] == u[..|u| - 1];
      }
    }
  }

  /** After adding the state, every edge leads to the state of the extended label. */
  lemma AddStateTargets(transition: seq<map<char, int>>, path: seq<string>, stateOf: map<string, int>, cur: int, c: char)
    requires IsTrie(transition, path, stateOf) && 0 <= cur < |path|
    requires path[cur] + [c] !in stateOf
    ensures var t := |transition|;
            var transition', path' := transition[cur := transition[cur][c := t]] + [map[]], path + [path[cur] + [c]];
            forall s, c' :: 0 <= s < |path'| && c' in transition'[s] ==>
              transition'[s][c'] == stateOf[path[cur] + [c] := t][path'[s] + [c']]
  {
    var t := |transition|;
    var u := path[cur] + [c];
    var transition' := transition[cur := transition[cur][c := t]] + [map[]];
    var path' := path + [u];
    var stateOf' := stateOf[u := t];
    assert u[..|u| - 1] == path[cur];
    forall s, c' | 0 <= s < |path'| && c' in transition'[s]
      ensures transition'[s][c'] == stateOf'[path'[s] + [c']]
    {
      if s != t && path[s] + [c'] == u {
        assert path[s] == (path[s] + [c'])[..|path[s]|] == u[..|u| - 1];
      }
    }
  }

  /** The prefixes of a whole pattern complete the prefix set of the patterns before it. */
  lemma PrefixesStep(patterns: seq<string>, i: nat)
    requires i < |patterns|
    ensures PrefixesOf(patterns, i) + WordPrefixes(patterns[i], |patterns[i]|) == PrefixesOf(patterns, i + 1)
  {
  }

  /** The prefix set grows by one prefix per character. */
  lemma WordPrefixesStep(word: string, j: nat)
    requires j < |word|
    ensures WordPrefixes(word, j + 1) == WordPrefixes(word, j) + {word[..j + 1]}
  {
  }

  /** The output sets of the trie under construction, after the first `count` patterns. */
  ghost predicate OwnOutputs(patterns: seq<string>, count: nat, matchSet: seq<set<int>>, path: seq<string>)
    requires |matchSet| == |path|
  {
    forall s :: 0 <= s < |matchSet| ==> matchSet[s] == Own(patterns, count, path[s])
  }

  /** Extending a prefix by its next character. */
  lemma PrefixSnoc(s: string, j: nat)
    requires j < |s|
    ensures s[..j + 1] == s[..j] + [s[j]]
  {
  }

  /** The key set after a new prefix of the current pattern gets its state. */
  lemma KeysStep(patterns: seq<string>, i: nat, j: nat, keys: set<string>)
    requires i < |patterns| && j < |patterns[i]|
    requires keys == PrefixesOf(patterns, i) + WordPrefixes(patterns[i], j)
    ensures keys + {patterns[i][..j + 1]} == PrefixesOf(patterns, i) + WordPrefixes(patterns[i], j + 1)
  {
    WordPrefixesStep(patterns[i], j);
  }

  /** A prefix of the current pattern that has no state yet is no earlier pattern. */
  lemma NewPrefixNotOwned(patterns: seq<string>, i: nat, u: string, keys: set<string>)
    requires i <= |patterns| && PrefixesOf(patterns, i) <= keys && u !in keys
    ensures Own(patterns, i, u) == {}
  {
    forall w | 0 <= w < i ensures patterns[w] != u {
      assert patterns[w][..|patterns[w]|] == patterns[w];
    }
  }

  /** An existing state for the next prefix leaves the key set as it should be. */
  lemma KeysKept(patterns: seq<string>, i: nat, j: nat, keys: set<string>)
    requires i < |patterns| && j < |patterns[i]|
    requires keys == PrefixesOf(patterns, i) + WordPrefixes(patterns[i], j)
    requires patterns[i][..j + 1] in keys
    ensures keys == PrefixesOf(patterns, i) + WordPrefixes(patterns[i], j + 1)
  {
    WordPrefixesStep(patterns[i], j);
  }

  /** Marking pattern i at its terminal state gives the output sets after i + 1 patterns. */
  lemma MarkStep(patterns: seq<string>, i: nat, matchSet: seq<set<int>>, path: seq<string>, stateOf: map<string, int>, cur: int)
    requires i < |patterns| && |matchSet| == |path| && States(path, stateOf)
    requires OwnOutputs(patterns, i, matchSet, path)
    requires 0 <= cur < |path| && path[cur] == patterns[i]
    ensures OwnOutputs(patterns, i + 1, matchSet[cur := matchSet[cur] + {i}], path)
  {
  }

  /**
   * Inserting pattern i, after its first j characters: the trie holds the
   * prefixes of the earlier patterns and of word[..j], the output sets are
   * still those of the earlier patterns, currentState spells word[..j], and
   * the states that existed before are unchanged.
   */
  ghost predicate Inserting(patterns: seq<string>, i: nat, j: nat, transition: seq<map<char, int>>, matchSet: seq<set<int>>,
                            path: seq<string>, stateOf: map<string, int>, currentState: int, path0: seq<string>)
  {
    i < |patterns| && j <= |patterns[i]| &&
    IsTrie(transition, path, stateOf) && |matchSet| == |transition| &&
    stateOf.Keys == PrefixesOf(patterns, i) + WordPrefixes(patterns[i], j) &&
    OwnOutputs(patterns, i, matchSet, path) &&
    0 <= currentState < |path| && path[currentState] == patterns[i][..j] &&
    |path| >= |path0| && path[..|path0|] == path0
  }

  /** One character of the pattern walk: follow the edge by word[j], creating its state when it is missing. */
  method InsertChar(patterns: seq<string>, i: nat, j: nat, transition: seq<map<char, int>>, matchSet: seq<set<int>>,
                    currentState: int, ghost path: seq<string>, ghost stateOf: map<string, int>, ghost path0: seq<string>)
    returns (transition': seq<map<char, int>>, matchSet': seq<set<int>>, currentState': int,
             ghost path': seq<string>, ghost stateOf': map<string, int>)
    requires Inserting(patterns, i, j, transition, matchSet, path, stateOf, currentState, path0)
    requires j < |patterns[i]|
    ensures Inserting(patterns, i, j + 1, transition', matchSet', path', stateOf', currentState', path0)
    ensures |transition| <= |transition'| <= |transition| + 1 && currentState < |transition'|
    ensures patterns[i][j] in transition'[currentState] && transition'[currentState][patterns[i][j]] == currentState'
  {
    var character := patterns[i][j];
    if character !in transition[currentState] {
      var t := |transition|;
      InsertNewState(patterns, i, j, transition, matchSet, path, stateOf, currentState, path0);
      transition' := transition[currentState := transition[currentState][character := t]] + [map[]];
      matchSet' := matchSet + [{}];
      path' := path + [patterns[i][..j + 1]];
      stateOf' := stateOf[patterns[i][..j + 1] := t];
      currentState' := t;
    } else {
      InsertKnownState(patterns, i, j, transition, matchSet, path, stateOf, currentState, path0);
      transition', matchSet', path', stateOf' := transition, matchSet, path, stateOf;
      currentState' := transition[currentState][character];
    }
  }

  /** A missing edge by word[j] gets a fresh state numbered |transition| with an empty output set. */
  lemma InsertNewState(patterns: seq<string>, i: nat, j: nat, transition: seq<map<char, int>>, matchSet: seq<set<int>>,
                       path: seq<string>, stateOf: map<string, int>, currentState: int, path0: seq<string>)
    requires Inserting(patterns, i, j, transition, matchSet, path, stateOf, currentState, path0)
    requires j < |patterns[i]| && patterns[i][j] !in transition[currentState]
    ensures var t, u := |transition|, patterns[i][..j + 1];
            Inserting(patterns, i, j + 1, transition[currentState := transition[currentState][patterns[i][j] := t]] + [map[]],
                      matchSet + [{}], path + [u], stateOf[u := t], t, path0)
  {
    var word, t := patterns[i], |transition|;
    PrefixSnoc(word, j);
    AddState(transition, path, stateOf, currentState, word[j]);
    KeysStep(patterns, i, j, stateOf.Keys);
    NewPrefixNotOwned(patterns, i, word[..j + 1], stateOf.Keys);
    OwnOutputsGrow(patterns, i, matchSet, path, word[..j + 1]);
    var path' := path + [word[..j + 1]];
    assert path'[..|path0|] == path[..|path0|];
    assert path'[t] == word[..j + 1];
  }

  /** A new state whose string is no earlier pattern starts with an empty output set. */
  lemma OwnOutputsGrow(patterns: seq<string>, i: nat, matchSet: seq<set<int>>, path: seq<string>, u: string)
    requires |matchSet| == |path| && OwnOutputs(patterns, i, matchSet, path) && Own(patterns, i, u) == {}
    ensures OwnOutputs(patterns, i, matchSet + [{}], path + [u])
  {
    forall s | 0 <= s < |path| + 1
      ensures (matchSet + [{}])[s] == Own(patterns, i, (path + [u])[s])
    {
      if s < |path| {
        assert (matchSet + [{}])[s] == matchSet[s];
        assert (path + [u])[s] == path[s];
      }
    }
  }

  /** An existing edge by word[j] is followed; nothing else changes. */
  lemma InsertKnownState(patterns: seq<string>, i: nat, j: nat, transition: seq<map<char, int>>, matchSet: seq<set<int>>,
                         path: seq<string>, stateOf: map<string, int>, currentState: int, path0: seq<string>)
    requires Inserting(patterns, i, j, transition, matchSet, path, stateOf, currentState, path0)
    requires j < |patterns[i]| && patterns[i][j] in transition[currentState]
    ensures Inserting(patterns, i, j + 1, transition, matchSet, path, stateOf,
                      transition[currentState][patterns[i][j]], path0)
  {
    PrefixSnoc(patterns[i], j);
    KeysKept(patterns, i, j, stateOf.Keys);
  }

  /** Walk pattern i from the root, creating each missing state, and mark its terminal state with bit i. */
  method InsertPattern(patterns: seq<string>, i: nat, transition0: seq<map<char, int>>, matchSet0: seq<set<int>>,
                       ghost path0: seq<string>, ghost stateOf0: map<string, int>)
    returns (transition: seq<map<char, int>>, matchSet: seq<set<int>>,
             ghost path: seq<string>, ghost stateOf: map<string, int>)
    requires i < |patterns|
    requires IsTrie(transition0, path0, stateOf0) && |matchSet0| == |transition0|
    requires stateOf0.Keys == PrefixesOf(patterns, i)
    requires OwnOutputs(patterns, i, matchSet0, path0)
    ensures IsTrie(transition, path, stateOf) && |matchSet| == |transition|
    ensures stateOf.Keys == PrefixesOf(patterns, i + 1)
    ensures OwnOutputs(patterns, i + 1, matchSet, path)
    ensures |transition| >= |transition0| && path[..|path0|] == path0
  {
    transition, matchSet, path, stateOf := transition0, matchSet0, path0, stateOf0;
    var word := patterns[i];
    var currentState := 0;
    assert path0[..|path0|] == path0;
    for j := 0 to |word|
      invariant Inserting(patterns, i, j, transition, matchSet, path, stateOf, currentState, path0)
    {
      transition, matchSet, currentState, path, stateOf :=
        InsertChar(patterns, i, j, transition, matchSet, currentState, path, stateOf, path0);
    }
    PrefixesStep(patterns, i);
    assert word[..|word|] == word;
    MarkStep(patterns, i, matchSet, path, stateOf, currentState);
    matchSet := matchSet[currentState := matchSet[currentState] + {i}];
  }

  /**
   * Build the trie: state 0 is the root, a new state gets the next free
   * number, and pattern w's terminal state has bit w set.
   */
  method BuildTrie(patterns: seq<string>)
    returns (transition: seq<map<char, int>>, matchSet: seq<set<int>>,
             ghost path: seq<string>, ghost stateOf: map<string, int>)
    requires ValidPatterns(patterns)
    ensures IsTrie(transition, path, stateOf)
    ensures stateOf.Keys == PrefixesOf(patterns, |patterns|)
    ensures |matchSet| == |transition|
    ensures OwnOutputs(patterns, |patterns|, matchSet, path)
  {
    transition, matchSet, path, stateOf := [map[]], [{}], [[]], map[[] := 0];
    for i := 0 to |patterns|
      invariant IsTrie(transition, path, stateOf) && |matchSet| == |transition|
      invariant stateOf.Keys == PrefixesOf(patterns, i)
      invariant OwnOutputs(patterns, i, matchSet, path)
    {
      transition, matchSet, path, stateOf := InsertPattern(patterns, i, transition, matchSet, path, stateOf);
    }
  }

  // ---------------------------------------------------------------------------
  // Suffix facts

  lemma SuffixSnoc(v: string, u: string, c: char)
    ensures IsSuffix(v + [c], u + [c]) <==> IsSuffix(v, u)
  {
    if IsSuffix(v + [c], u + [c]) {
      assert (u + [c])[|u| + 1 - (|v| + 1)..] == u[|u| - |v|..] + [c];
      assert v == (v + [c])[..|v|];
    }
    if IsSuffix(v, u) {
      assert (u + [c])[|u| + 1 - (|v| + 1)..] == u[|u| - |v|..] + [c];
    }
  }

  /** A non-empty suffix of u + [c] ends with c and what precedes c is a suffix of u. */
  lemma SuffixSplit(v: string, u: string, c: char)
    requires IsSuffix(v, u + [c]) && |v| > 0
    ensures v == v[..|v| - 1] + [c] && IsSuffix(v[..|v| - 1], u)
  {
    assert v[|v| - 1] == (u + [c])[|u|];
    assert v == v[..|v| - 1] + [v[|v| - 1]];
    SuffixSnoc(v[..|v| - 1], u, c);
  }

  lemma SuffixTrans(a: string, b: string, u: string)
    requires IsSuffix(a, b) && IsSuffix(b, u)
    ensures IsSuffix(a, u)
  {
    assert u[|u| - |a|..] == u[|u| - |b|..][|b| - |a|..];
  }

  /** Of two suffixes of the same string, the shorter is a suffix of the longer. */
  lemma SuffixOfSuffix(a: string, b: string, u: string)
    requires IsSuffix(a, u) && IsSuffix(b, u) && |a| <= |b|
    ensures IsSuffix(a, b)
  {
    assert u[|u| - |a|..] == u[|u| - |b|..][|b| - |a|..];
  }

  lemma SuffixRefl(u: string)
    ensures IsSuffix(u, u)
  {
    assert u[0..] == u;
  }

  lemma EmptySuffix(u: string)
    ensures IsSuffix([], u)
  {
  }

  // ---------------------------------------------------------------------------
  // The completed automaton

  /** Every trie string only uses characters below C. */
  ghost predicate KeysInAlphabet(stateOf: map<string, int>)
  {
    forall u :: u in stateOf ==> InAlphabet(u)
  }

  /** The root has an edge for every character in [0, C): its trie edge if there is one, otherwise a self-loop. */
  ghost predicate RootTotal(transition: seq<map<char, int>>, stateOf: map<string, int>)
    requires |transition| >= 1
  {
    (forall c :: c in transition[0] <==> (c as int) < C) &&
    (forall c :: c in transition[0] ==> transition[0][c] == if [c] in stateOf then stateOf[[c]] else 0)
  }

  /** The trie after root completion. */
  ghost predicate IsAutomaton(transition: seq<map<char, int>>, path: seq<string>, stateOf: map<string, int>)
  {
    |transition| == |path| && States(path, stateOf) && TrieEdges(transition, path, stateOf, 1) &&
    RootTotal(transition, stateOf) && KeysInAlphabet(stateOf)
  }

  lemma PrefixesInAlphabet(patterns: seq<string>)
    requires ValidPatterns(patterns)
    ensures forall u :: u in PrefixesOf(patterns, |patterns|) ==> InAlphabet(u)
  {
  }

  /** The states one character deep whose character is below `bound`. */
  ghost predicate RootChildrenBelow(path: seq<string>, q: seq<int>, bound: int)
  {
    (forall x :: x in q <==> 0 < x < |path| && |path[x]| == 1 && (path[x][0] as int) < bound) &&
    (forall a, b :: 0 <= a < b < |q| ==> q[a] != q[b])
  }

  /** The queue of root children after character ch is considered. */
  lemma RootChildStep(path: seq<string>, stateOf: map<string, int>, q: seq<int>, ch: char)
    requires States(path, stateOf) && RootChildrenBelow(path, q, ch as int)
    ensures [ch] in stateOf ==> stateOf[[ch]] != 0 && RootChildrenBelow(path, q + [stateOf[[ch]]], ch as int + 1)
    ensures [ch] !in stateOf ==> RootChildrenBelow(path, q, ch as int + 1)
  {
    forall x | 0 < x < |path| && |path[x]| == 1
      ensures path[x] == [path[x][0]]
    {
    }
  }

  /**
   * Root completion: every character in [0, C) without a root edge gets a
   * self-loop at the root; every existing root edge is kept, its target gets
   * suffix link 0 and is queued, in character order.
   */
  method CompleteRoot(transition0: seq<map<char, int>>, ghost path: seq<string>, ghost stateOf: map<string, int>)
    returns (transition: seq<map<char, int>>, suffixLink: array<int>, q: seq<int>)
    requires IsTrie(transition0, path, stateOf) && KeysInAlphabet(stateOf)
    ensures IsAutomaton(transition, path, stateOf)
    ensures |transition| == |transition0| && transition[1..] == transition0[1..]
    ensures fresh(suffixLink) && suffixLink.Length == |transition|
    ensures forall s :: 0 <= s < suffixLink.Length ==> suffixLink[s] == 0
    ensures RootChildrenBelow(path, q, C)
  {
    transition := transition0;
    suffixLink := new int[|transition|](_ => 0);
    q := [];
    RootLoopStart(transition0, path, stateOf);
    for character := 0 to C
      invariant RootLoop(transition0, transition, path, stateOf, q, character)
      invariant suffixLink.Length == |transition|
      invariant AllZero(suffixLink[..])
    {
      transition, q := RootStep(transition0, transition, suffixLink, q, character as char, path, stateOf);
    }
    CompletedRoot(transition0, transition, path, stateOf, q);
  }

  /** Every entry is 0. */
  predicate AllZero(a: seq<int>)
  {
    forall s :: 0 <= s < |a| ==> a[s] == 0
  }

  /** One pass of the root completion loop, for character ch. */
  method RootStep(ghost transition0: seq<map<char, int>>, transition: seq<map<char, int>>, suffixLink: array<int>,
                  q: seq<int>, ch: char, ghost path: seq<string>, ghost stateOf: map<string, int>)
    returns (transition': seq<map<char, int>>, q': seq<int>)
    requires RootLoop(transition0, transition, path, stateOf, q, ch as int)
    requires suffixLink.Length == |transition|
    requires AllZero(suffixLink[..])
    modifies suffixLink
    ensures RootLoop(transition0, transition', path, stateOf, q', ch as int + 1)
    ensures AllZero(suffixLink[..])
  {
    transition', q' := transition, q;
    if ch !in transition[0] {
      transition' := transition[0 := transition[0][ch := 0]];
    } else {
      var neighToRoot := transition[0][ch];
      suffixLink[neighToRoot] := 0;
      q' := q + [neighToRoot];
    }
    RootLoopStep(transition0, transition, transition', path, stateOf, q, q', ch);
  }

  /**
   * The root completion loop after the characters below `character`: those
   * have a root edge, the other root edges are the trie's, and the root
   * children by those characters are queued in order.
   */
  ghost predicate RootLoop(transition0: seq<map<char, int>>, transition: seq<map<char, int>>, path: seq<string>,
                           stateOf: map<string, int>, q: seq<int>, character: int)
  {
    IsTrie(transition0, path, stateOf) &&
    |transition| == |transition0| && transition[1..] == transition0[1..] &&
    (forall c :: (c in transition[0] <==> (c as int) < character || [c] in stateOf)) &&
    (forall c :: c in transition[0] ==> transition[0][c] == if [c] in stateOf then stateOf[[c]] else 0) &&
    (forall c :: c in transition[0] ==> 0 <= transition[0][c] < |transition|) &&
    RootChildrenBelow(path, q, character)
  }

  /** Before the loop, the root has exactly its trie edges and nothing is queued. */
  lemma RootLoopStart(transition0: seq<map<char, int>>, path: seq<string>, stateOf: map<string, int>)
    requires IsTrie(transition0, path, stateOf)
    ensures RootLoop(transition0, transition0, path, stateOf, [], 0)
  {
    forall c ensures path[0] + [c] == [c] {
    }
  }

  /** One character of the root completion: a missing root edge becomes a self-loop, an existing one queues its target. */
  lemma RootLoopStep(transition0: seq<map<char, int>>, transition: seq<map<char, int>>, transition': seq<map<char, int>>,
                     path: seq<string>, stateOf: map<string, int>, q: seq<int>, q': seq<int>, ch: char)
    requires RootLoop(transition0, transition, path, stateOf, q, ch as int)
    requires ch !in transition[0] ==> transition' == transition[0 := transition[0][ch := 0]] && q' == q
    requires ch in transition[0] ==> transition' == transition && q' == q + [transition[0][ch]]
    ensures RootLoop(transition0, transition', path, stateOf, q', ch as int + 1)
  {
    assert path[0] + [ch] == [ch];
    RootChildStep(path, stateOf, q, ch);
    if ch in transition[0] {
      assert path[transition[0][ch]] == [ch];
    } else {
      forall s | 1 <= s < |transition'| ensures transition'[s] == transition[s] {
      }
      assert transition'[1..] == transition[1..];
    }
  }

  /** The root map after the completion loop makes the automaton. */
  lemma CompletedRoot(transition0: seq<map<char, int>>, transition: seq<map<char, int>>, path: seq<string>, stateOf: map<string, int>,
                      q: seq<int>)
    requires RootLoop(transition0, transition, path, stateOf, q, C) && KeysInAlphabet(stateOf)
    ensures IsAutomaton(transition, path, stateOf)
  {
    forall c | [c] in stateOf ensures (c as int) < C {
      assert InAlphabet([c]);
      assert [c][0] == c;
    }
    forall s | 1 <= s < |transition| ensures transition[s] == transition0[s] {
      assert transition[s] == transition[1..][s - 1];
    }
  }

  // ---------------------------------------------------------------------------
  // Suffix links

  /** `v` is the longest string of the trie that is a suffix of `u`. */
  ghost predicate IsLongestSuffix(stateOf: map<string, int>, v: string, u: string)
  {
    v in stateOf && IsSuffix(v, u) &&
    forall v' :: v' in stateOf && IsSuffix(v', u) ==> |v'| <= |v|
  }

  /** `v` is the longest string of the trie that is a proper suffix of `u`. */
  ghost predicate IsLongestProperSuffix(stateOf: map<string, int>, v: string, u: string)
  {
    v in stateOf && IsSuffix(v, u) && |v| < |u| &&
    forall v' :: v' in stateOf && IsSuffix(v', u) && |v'| < |u| ==> |v'| <= |v|
  }

  /** The suffix link of state s is the state of the longest proper suffix of its string that is in the trie. */
  ghost predicate LinkOk(path: seq<string>, stateOf: map<string, int>, link: seq<int>, s: int)
    requires |link| == |path| && 0 <= s < |path|
  {
    0 <= link[s] < |path| && IsLongestProperSuffix(stateOf, path[link[s]], path[s])
  }

  /** Every non-root state at most `depth` characters deep has its final suffix link. */
  ghost predicate LinksUpTo(path: seq<string>, stateOf: map<string, int>, link: seq<int>, depth: int)
    requires |link| == |path|
  {
    forall x :: 0 < x < |path| && |path[x]| <= depth ==> LinkOk(path, stateOf, link, x)
  }

  /**
   * Follow the automaton from `state` on character c, falling back along
   * suffix links while there is no edge for c (the root always has one):
   * the result is the state of the longest suffix of path[state] + [c] that
   * is in the trie.
   */
  method FallBack(transition: seq<map<char, int>>, suffixLink: array<int>, state: int, c: char,
                  ghost path: seq<string>, ghost stateOf: map<string, int>)
    returns (next: int)
    requires IsAutomaton(transition, path, stateOf) && suffixLink.Length == |path|
    requires 0 <= state < |path| && (c as int) < C
    requires LinksUpTo(path, stateOf, suffixLink[..], |path[state]|)
    ensures 0 <= next < |path| && IsLongestSuffix(stateOf, path[next], path[state] + [c])
  {
    var fallBackState := state;
    SuffixRefl(path[state]);
    while c !in transition[fallBackState]
      invariant 0 <= fallBackState < |path| && IsSuffix(path[fallBackState], path[state])
      invariant forall v :: v in stateOf && IsSuffix(v, path[state]) && v + [c] in stateOf ==> |v| <= |path[fallBackState]|
      decreases |path[fallBackState]|
    {
      var f := fallBackState;
      assert f != 0;
      assert LinkOk(path, stateOf, suffixLink[..], f);
      var g := suffixLink[f];
      forall v | v in stateOf && IsSuffix(v, path[state]) && v + [c] in stateOf
        ensures |v| <= |path[g]|
      {
        SuffixOfSuffix(v, path[f], path[state]);
      }
      SuffixTrans(path[g], path[f], path[state]);
      fallBackState := g;
    }
    var f := fallBackState;
    next := transition[f][c];
    var u := path[state] + [c];
    if f != 0 || [c] in stateOf {
      assert path[next] == path[f] + [c] by {
        if f == 0 {
          assert path[0] + [c] == [c];
        }
      }
      SuffixSnoc(path[f], path[state], c);
    } else {
      EmptySuffix(u);
    }
    forall v' | v' in stateOf && IsSuffix(v', u) ensures |v'| <= |path[next]| {
      if |v'| > 0 {
        SuffixSplit(v', path[state], c);
      }
    }
  }

  /** The last character on the path to state x. */
  ghost function LastChar(path: seq<string>, x: int): char
    requires 0 <= x < |path| && |path[x]| > 0
  {
    path[x][|path[x]| - 1]
  }

  /** The trie parent of a non-root state. */
  ghost function Parent(path: seq<string>, stateOf: map<string, int>, x: int): (p: int)
    requires States(path, stateOf) && 0 < x < |path|
    ensures |path[x]| > 0 && 0 <= p < |path| && path[p] == path[x][..|path[x]| - 1]
  {
    assert path[x] != path[0];
    stateOf[path[x][..|path[x]| - 1]]
  }

  /** The indices of the patterns that are suffixes of u: the output set of u's state once links are complete. */
  ghost function AllOutputs(patterns: seq<string>, u: string): set<int>
  {
    set w | 0 <= w < |patterns| && IsSuffix(patterns[w], u)
  }

  /** The link of a child follows from its parent's link and the fallback walk from it. */
  lemma LinkOfChild(stateOf: map<string, int>, parentLink: string, parent: string, c: char, v: string)
    requires forall u :: u in stateOf && |u| > 0 ==> u[..|u| - 1] in stateOf
    requires IsLongestProperSuffix(stateOf, parentLink, parent)
    requires IsLongestSuffix(stateOf, v, parentLink + [c])
    ensures IsLongestProperSuffix(stateOf, v, parent + [c])
  {
    SuffixSnoc(parentLink, parent, c);
    SuffixTrans(v, parentLink + [c], parent + [c]);
    forall v' | v' in stateOf && IsSuffix(v', parent + [c]) && |v'| < |parent| + 1
      ensures |v'| <= |v|
    {
      if |v'| > 0 {
        SuffixSplit(v', parent, c);
        var v0 := v'[..|v'| - 1];
        SuffixOfSuffix(v0, parentLink, parent);
        SuffixSnoc(v0, parentLink, c);
      }
    }
  }

  /** Each pattern has a state. */
  lemma PatternsAreKeys(patterns: seq<string>, w: int)
    requires 0 <= w < |patterns|
    ensures patterns[w] in PrefixesOf(patterns, |patterns|)
  {
    assert patterns[w][..|patterns[w]|] == patterns[w];
  }

  /** A state's own patterns together with those of its link are all the patterns ending its string. */
  lemma OutputOfChild(patterns: seq<string>, stateOf: map<string, int>, v: string, u: string)
    requires PrefixesOf(patterns, |patterns|) <= stateOf.Keys
    requires IsLongestProperSuffix(stateOf, v, u)
    ensures Own(patterns, |patterns|, u) + AllOutputs(patterns, v) == AllOutputs(patterns, u)
  {
    forall w | 0 <= w < |patterns| && IsSuffix(patterns[w], u)
      ensures w in Own(patterns, |patterns|, u) + AllOutputs(patterns, v)
    {
      if patterns[w] != u {
        PatternsAreKeys(patterns, w);
        SuffixOfSuffix(patterns[w], v, u);
      }
    }
    forall w | w in Own(patterns, |patterns|, u) ensures IsSuffix(patterns[w], u) {
      SuffixRefl(u);
    }
    forall w | w in AllOutputs(patterns, v) ensures IsSuffix(patterns[w], u) {
      SuffixTrans(patterns[w], v, u);
    }
  }

  /**
   * The queue of the breadth-first pass: `done` holds the processed states,
   * `q` the queued ones, distinct, in non-decreasing depth within
   * [lvl, lvl + 1], and every state at most lvl deep is in one of them.
   */
  ghost predicate QueueShape(path: seq<string>, done: set<int>, q: seq<int>, lvl: nat)
  {
    (forall a :: 0 <= a < |q| ==> 0 < q[a] < |path| && lvl <= |path[q[a]]| <= lvl + 1) &&
    (forall a, b :: 0 <= a < b < |q| ==> q[a] != q[b] && |path[q[a]]| <= |path[q[b]]|) &&
    (forall x :: x in done ==> 0 < x < |path| && x !in q && |path[x]| <= lvl) &&
    (forall x :: 0 < x < |path| && |path[x]| <= lvl ==> x in done || x in q)
  }

  /** A discovered state has its final link and output set, an undiscovered one still its own output set. */
  ghost predicate Knowledge(patterns: seq<string>, path: seq<string>, stateOf: map<string, int>,
                            link: seq<int>, matchSet: seq<set<int>>, done: set<int>, q: seq<int>)
    requires |link| == |path| && |matchSet| == |path| >= 1
  {
    matchSet[0] == {} &&
    (forall x :: 0 < x < |path| && (x in done || x in q) ==>
       LinkOk(path, stateOf, link, x) && matchSet[x] == AllOutputs(patterns, path[x])) &&
    (forall x :: 0 < x < |path| && x !in done && x !in q ==> matchSet[x] == Own(patterns, |patterns|, path[x]))
  }

  /**
   * A state is discovered iff its parent is the root or processed, except
   * the children of `s` by a character still in `rest`.
   */
  ghost predicate Discovery(path: seq<string>, stateOf: map<string, int>, done: set<int>, q: seq<int>, s: int, rest: set<char>)
    requires States(path, stateOf)
  {
    forall x :: 0 < x < |path| ==>
      ((x in done || x in q) <==>
       (Parent(path, stateOf, x) == 0 || Parent(path, stateOf, x) in done) &&
       !(Parent(path, stateOf, x) == s && LastChar(path, x) in rest))
  }

  /** The invariant of the breadth-first pass. */
  ghost predicate BfsInv(patterns: seq<string>, path: seq<string>, stateOf: map<string, int>,
                         link: seq<int>, matchSet: seq<set<int>>,
                         done: set<int>, q: seq<int>, lvl: nat, s: int, rest: set<char>)
    requires States(path, stateOf) && |link| == |path| && |matchSet| == |path|
  {
    QueueShape(path, done, q, lvl) &&
    Knowledge(patterns, path, stateOf, link, matchSet, done, q) &&
    Discovery(path, stateOf, done, q, s, rest)
  }

  /** A one-character string: its only proper suffix is empty, and the patterns ending it are the ones equal to it. */
  lemma DepthOne(patterns: seq<string>, stateOf: map<string, int>, u: string)
    requires ValidPatterns(patterns) && [] in stateOf && |u| == 1
    ensures IsLongestProperSuffix(stateOf, [], u)
    ensures Own(patterns, |patterns|, u) == AllOutputs(patterns, u)
  {
    forall w | 0 <= w < |patterns| && IsSuffix(patterns[w], u) ensures patterns[w] == u {
      assert u[|u| - |patterns[w]|..] == u;
    }
    forall w | w in Own(patterns, |patterns|, u) ensures IsSuffix(patterns[w], u) {
      SuffixRefl(u);
    }
  }

  /** Before the breadth-first pass, the queue holds exactly the root's children, the states one deep. */
  lemma InitDiscovery(transition: seq<map<char, int>>, path: seq<string>, stateOf: map<string, int>, q: seq<int>)
    requires IsAutomaton(transition, path, stateOf) && RootChildrenBelow(path, q, C)
    ensures QueueShape(path, {}, q, 1)
    ensures Discovery(path, stateOf, {}, q, 0, {})
  {
    forall x | 0 < x < |path| ensures x in q <==> Parent(path, stateOf, x) == 0 {
      assert path[x] != path[0];
      if Parent(path, stateOf, x) == 0 {
        assert |path[x]| == 1;
      }
      assert InAlphabet(path[x]);
    }
    forall x | 0 < x < |path| && |path[x]| <= 1 ensures x in q {
      assert path[x] != path[0];
      assert InAlphabet(path[x]);
    }
    forall a | 0 <= a < |q| ensures 0 < q[a] < |path| && |path[q[a]]| == 1 {
      assert q[a] in q;
    }
  }

  /** Before the breadth-first pass, the root's children have link 0 and their own outputs, which are final. */
  lemma InitKnowledge(patterns: seq<string>, transition: seq<map<char, int>>, path: seq<string>, stateOf: map<string, int>,
                      link: seq<int>, matchSet: seq<set<int>>, q: seq<int>)
    requires ValidPatterns(patterns) && IsAutomaton(transition, path, stateOf)
    requires |link| == |path| && |matchSet| == |path|
    requires OwnOutputs(patterns, |patterns|, matchSet, path)
    requires forall x :: 0 <= x < |link| ==> link[x] == 0
    requires RootChildrenBelow(path, q, C)
    ensures Knowledge(patterns, path, stateOf, link, matchSet, {}, q)
  {
    assert matchSet[0] == Own(patterns, |patterns|, []);
    forall x | x in q ensures LinkOk(path, stateOf, link, x) && matchSet[x] == AllOutputs(patterns, path[x]) {
      DepthOne(patterns, stateOf, path[x]);
    }
  }

  /** Every discovered state up to the current depth already has its final link and output set. */
  lemma BfsKnown(patterns: seq<string>, path: seq<string>, stateOf: map<string, int>,
                 link: seq<int>, matchSet: seq<set<int>>,
                 done: set<int>, q: seq<int>, lvl: nat)
    requires ValidPatterns(patterns) && States(path, stateOf) && |link| == |path| && |matchSet| == |path|
    requires QueueShape(path, done, q, lvl) && Knowledge(patterns, path, stateOf, link, matchSet, done, q)
    ensures LinksUpTo(path, stateOf, link, lvl)
    ensures forall x :: 0 <= x < |path| && |path[x]| <= lvl ==> matchSet[x] == AllOutputs(patterns, path[x])
  {
    forall x | 0 < x < |path| && |path[x]| <= lvl
      ensures LinkOk(path, stateOf, link, x) && matchSet[x] == AllOutputs(patterns, path[x])
    {
      KnownOne(patterns, path, stateOf, link, matchSet, done, q, x);
    }
    NoRootOutputs(patterns);
    forall x | 0 <= x < |path| && |path[x]| <= lvl ensures matchSet[x] == AllOutputs(patterns, path[x]) {
      if x == 0 {
        assert matchSet[0] == {} && path[0] == [];
      } else {
        KnownOne(patterns, path, stateOf, link, matchSet, done, q, x);
      }
    }
  }

  /** No pattern is empty, so none ends the empty string. */
  lemma NoRootOutputs(patterns: seq<string>)
    requires ValidPatterns(patterns)
    ensures AllOutputs(patterns, []) == {}
  {
    forall w | 0 <= w < |patterns| ensures !IsSuffix(patterns[w], []) {
      assert |patterns[w]| >= 1;
    }
  }

  /** A discovered state has its final link and output set. */
  lemma KnownOne(patterns: seq<string>, path: seq<string>, stateOf: map<string, int>,
                 link: seq<int>, matchSet: seq<set<int>>, done: set<int>, q: seq<int>, x: int)
    requires |link| == |path| && |matchSet| == |path| >= 1
    requires Knowledge(patterns, path, stateOf, link, matchSet, done, q)
    requires 0 < x < |path| && (x in done || x in q)
    ensures LinkOk(path, stateOf, link, x) && matchSet[x] == AllOutputs(patterns, path[x])
  {
  }

  /** Every state as deep as the head of the queue is discovered: its parent is shallower, hence processed. */
  lemma HeadLevelDiscovered(path: seq<string>, stateOf: map<string, int>, done: set<int>, q: seq<int>, lvl: nat)
    requires States(path, stateOf) && QueueShape(path, done, q, lvl) && Discovery(path, stateOf, done, q, 0, {}) && |q| > 0
    ensures forall x :: 0 < x < |path| && |path[x]| <= |path[q[0]]| ==> x in done || x in q
  {
    forall x | 0 < x < |path| && |path[x]| <= |path[q[0]]| ensures x in done || x in q {
      if |path[x]| > lvl {
        var p := Parent(path, stateOf, x);
      }
    }
  }

  /** Taking the head of the queue keeps the depth order, with lvl the depth of the taken state. */
  lemma PopShape(path: seq<string>, done: set<int>, q: seq<int>, lvl: nat)
    requires QueueShape(path, done, q, lvl) && |q| > 0
    requires forall x :: 0 < x < |path| && |path[x]| <= |path[q[0]]| ==> x in done || x in q
    ensures QueueShape(path, done + {q[0]}, q[1..], |path[q[0]]|)
  {
    var s := q[0];
    var lvl' := |path[s]|;
    var q' := q[1..];
    forall a | 0 <= a < |q'| ensures 0 < q'[a] < |path| && lvl' <= |path[q'[a]]| <= lvl' + 1 {
      assert q'[a] == q[a + 1];
    }
    forall a, b | 0 <= a < b < |q'| ensures q'[a] != q'[b] && |path[q'[a]]| <= |path[q'[b]]| {
      assert q'[a] == q[a + 1] && q'[b] == q[b + 1];
    }
    forall x | x in done + {s} ensures 0 < x < |path| && x !in q' && |path[x]| <= lvl' {
    }
    forall x | 0 < x < |path| && |path[x]| <= lvl' ensures x in done + {s} || x in q' {
      if x in q && x != s {
        var a :| 0 <= a < |q| && q[a] == x;
        assert q'[a - 1] == x;
      }
    }
  }

  /** Taking the head of the queue leaves the discovered set as it was; the head's children are pending. */
  lemma PopDiscovery(transition: seq<map<char, int>>, path: seq<string>, stateOf: map<string, int>, done: set<int>, q: seq<int>)
    requires IsAutomaton(transition, path, stateOf) && Discovery(path, stateOf, done, q, 0, {})
    requires |q| > 0 && 0 < q[0] < |path| && q[0] !in done
    ensures Discovery(path, stateOf, done + {q[0]}, q[1..], q[0], transition[q[0]].Keys)
  {
    var s := q[0];
    forall x | 0 < x < |path| && Parent(path, stateOf, x) == s
      ensures LastChar(path, x) in transition[s].Keys
    {
      assert path[x] == path[s] + [LastChar(path, x)];
    }
    forall x ensures x in q <==> x == s || x in q[1..] {
    }
  }

  /** Knowledge only depends on the discovered set, which taking the head of the queue keeps. */
  lemma PopKnowledge(patterns: seq<string>, path: seq<string>, stateOf: map<string, int>,
                     link: seq<int>, matchSet: seq<set<int>>, done: set<int>, q: seq<int>)
    requires |link| == |path| && |matchSet| == |path| >= 1
    requires Knowledge(patterns, path, stateOf, link, matchSet, done, q) && |q| > 0
    ensures Knowledge(patterns, path, stateOf, link, matchSet, done + {q[0]}, q[1..])
  {
    forall x ensures x in q <==> x == q[0] || x in q[1..] {
    }
  }

  /** Queuing a child of the current state, one level deeper, keeps the depth order. */
  lemma ChildShape(path: seq<string>, done: set<int>, q: seq<int>, lvl: nat, t: int)
    requires QueueShape(path, done, q, lvl)
    requires 0 < t < |path| && |path[t]| == lvl + 1 && t !in done && t !in q
    ensures QueueShape(path, done, q + [t], lvl)
  {
  }

  /** The child of s by a pending character is undiscovered, and queuing it discovers exactly it. */
  lemma ChildDiscovery(transition: seq<map<char, int>>, path: seq<string>, stateOf: map<string, int>,
                       done: set<int>, q: seq<int>, s: int, rest: set<char>, c: char)
    requires IsAutomaton(transition, path, stateOf) && Discovery(path, stateOf, done, q, s, rest)
    requires 0 < s < |path| && s in done && c in rest && c in transition[s]
    ensures var t := transition[s][c];
            0 < t < |path| && path[t] == path[s] + [c] && t !in done && t !in q &&
            Discovery(path, stateOf, done, q + [t], s, rest - {c})
  {
    var t := transition[s][c];
    assert path[t] == path[s] + [c];
    assert path[t] != path[0];
    assert path[t][..|path[t]| - 1] == path[s];
    assert Parent(path, stateOf, t) == s && LastChar(path, t) == c;
    forall x | 0 < x < |path| && Parent(path, stateOf, x) == s && LastChar(path, x) == c
      ensures x == t
    {
      assert path[x] == path[s] + [c];
    }
  }

  /** Giving the new child its link and the outputs of its link's state keeps the knowledge invariant. */
  lemma ChildKnowledge(patterns: seq<string>, path: seq<string>, stateOf: map<string, int>,
                       link: seq<int>, matchSet: seq<set<int>>, done: set<int>, q: seq<int>, t: int, r: int)
    requires |link| == |path| && |matchSet| == |path| >= 1
    requires PrefixesOf(patterns, |patterns|) <= stateOf.Keys
    requires Knowledge(patterns, path, stateOf, link, matchSet, done, q)
    requires 0 < t < |path| && t !in done && t !in q && 0 <= r < |path|
    requires IsLongestProperSuffix(stateOf, path[r], path[t]) && matchSet[r] == AllOutputs(patterns, path[r])
    ensures Knowledge(patterns, path, stateOf, link[t := r], matchSet[t := matchSet[t] + matchSet[r]], done, q + [t])
  {
    var link', matchSet', q' := link[t := r], matchSet[t := matchSet[t] + matchSet[r]], q + [t];
    forall x | 0 < x < |path| && (x in done || x in q')
      ensures LinkOk(path, stateOf, link', x) && matchSet'[x] == AllOutputs(patterns, path[x])
    {
      if x == t {
        assert matchSet[t] == Own(patterns, |patterns|, path[t]);
        OutputOfChild(patterns, stateOf, path[r], path[t]);
      } else {
        assert x in done || x in q;
        assert LinkOk(path, stateOf, link, x);
      }
    }
    forall x | 0 < x < |path| && x !in done && x !in q' ensures matchSet'[x] == Own(patterns, |patterns|, path[x]) {
      assert x != t && x !in q;
    }
  }

  /** Once the queue is empty, every state has been processed: each parent chain leads back to the root. */
  lemma {:induction false} AllProcessed(path: seq<string>, stateOf: map<string, int>, done: set<int>, x: int)
    requires States(path, stateOf) && Discovery(path, stateOf, done, [], 0, {})
    requires 0 < x < |path|
    ensures x in done
    decreases |path[x]|
  {
    var p := Parent(path, stateOf, x);
    if p != 0 {
      AllProcessed(path, stateOf, done, p);
    }
  }

  /** The automaton is complete: every non-root state has its suffix link and every state its full output set. */
  ghost predicate LinksComplete(patterns: seq<string>, path: seq<string>, stateOf: map<string, int>,
                                link: seq<int>, matchSet: seq<set<int>>)
    requires |link| == |path| && |matchSet| == |path|
  {
    (forall x :: 0 < x < |path| ==> LinkOk(path, stateOf, link, x)) &&
    (forall x :: 0 <= x < |path| ==> matchSet[x] == AllOutputs(patterns, path[x]))
  }

  /** The non-root states not processed yet. */
  ghost function Unprocessed(n: int, done: set<int>): set<int>
  {
    set x | 0 < x < n && x !in done
  }

  lemma UnprocessedShrinks(n: int, done: set<int>, s: int)
    requires 0 < s < n && s !in done
    ensures Unprocessed(n, done + {s}) < Unprocessed(n, done)
  {
    assert s in Unprocessed(n, done);
  }

  /** Process every edge of a state taken from the queue: link, outputs and queueing of each child. */
  method LinkChildren(patterns: seq<string>, transition: seq<map<char, int>>, suffixLink: array<int>,
                      matchSet0: seq<set<int>>, q0: seq<int>, ghost done: set<int>, ghost lvl: nat, state: int,
                      ghost path: seq<string>, ghost stateOf: map<string, int>)
    returns (matchSet: seq<set<int>>, q: seq<int>)
    modifies suffixLink
    requires ValidPatterns(patterns) && IsAutomaton(transition, path, stateOf)
    requires stateOf.Keys == PrefixesOf(patterns, |patterns|)
    requires suffixLink.Length == |path| && |matchSet0| == |path|
    requires 0 < state < |path| && state in done && |path[state]| == lvl
    requires BfsInv(patterns, path, stateOf, suffixLink[..], matchSet0, done, q0, lvl, state, transition[state].Keys)
    ensures |matchSet| == |path|
    ensures BfsInv(patterns, path, stateOf, suffixLink[..], matchSet, done, q, lvl, 0, {})
  {
    matchSet, q := matchSet0, q0;
    var rest := transition[state].Keys;
    while rest != {}
      invariant |matchSet| == |path|
      invariant 0 < state < |path| && state in done && |path[state]| == lvl
      invariant rest <= transition[state].Keys
      invariant BfsInv(patterns, path, stateOf, suffixLink[..], matchSet, done, q, lvl, state, rest)
      decreases rest
    {
      var character :| character in rest;
      ChildDiscovery(transition, path, stateOf, done, q, state, rest, character);
      var nextState := transition[state][character];
      assert InAlphabet(path[nextState]) && path[nextState][lvl] == character;
      BfsKnown(patterns, path, stateOf, suffixLink[..], matchSet, done, q, lvl);
      assert LinkOk(path, stateOf, suffixLink[..], state);
      var fallBackState := FallBack(transition, suffixLink, suffixLink[state], character, path, stateOf);
      LinkOfChild(stateOf, path[suffixLink[state]], path[state], character, path[fallBackState]);
      ChildShape(path, done, q, lvl, nextState);
      ChildKnowledge(patterns, path, stateOf, suffixLink[..], matchSet, done, q, nextState, fallBackState);
      suffixLink[nextState] := fallBackState;
      matchSet := matchSet[nextState := matchSet[nextState] + matchSet[fallBackState]];
      q := q + [nextState];
      rest := rest - {character};
    }
  }

  /**
   * Breadth-first pass from the root's children: for every edge s -c-> t,
   * t's link is found by falling back from s's link on c, t's output set
   * gains its link's, and t is queued.
   */
  method BuildLinks(patterns: seq<string>, transition: seq<map<char, int>>, suffixLink: array<int>,
                    matchSet0: seq<set<int>>, q0: seq<int>, ghost path: seq<string>, ghost stateOf: map<string, int>)
    returns (matchSet: seq<set<int>>)
    modifies suffixLink
    requires ValidPatterns(patterns) && IsAutomaton(transition, path, stateOf)
    requires stateOf.Keys == PrefixesOf(patterns, |patterns|)
    requires suffixLink.Length == |path| && |matchSet0| == |path|
    requires OwnOutputs(patterns, |patterns|, matchSet0, path)
    requires forall x :: 0 <= x < suffixLink.Length ==> suffixLink[x] == 0
    requires RootChildrenBelow(path, q0, C)
    ensures |matchSet| == |path| && LinksComplete(patterns, path, stateOf, suffixLink[..], matchSet)
  {
    matchSet := matchSet0;
    var q := q0;
    ghost var done: set<int> := {};
    ghost var lvl: nat := 1;
    InitDiscovery(transition, path, stateOf, q);
    InitKnowledge(patterns, transition, path, stateOf, suffixLink[..], matchSet, q);
    while q != []
      invariant |matchSet| == |path|
      invariant BfsInv(patterns, path, stateOf, suffixLink[..], matchSet, done, q, lvl, 0, {})
      decreases Unprocessed(|path|, done)
    {
      HeadLevelDiscovered(path, stateOf, done, q, lvl);
      PopShape(path, done, q, lvl);
      PopDiscovery(transition, path, stateOf, done, q);
      PopKnowledge(patterns, path, stateOf, suffixLink[..], matchSet, done, q);
      var state := q[0];
      q := q[1..];
      UnprocessedShrinks(|path|, done, state);
      done := done + {state};
      lvl := |path[state]|;
      matchSet, q := LinkChildren(patterns, transition, suffixLink, matchSet, q, done, lvl, state, path, stateOf);
    }
    forall x | 0 < x < |path| ensures x in done {
      AllProcessed(path, stateOf, done, x);
    }
    NoRootOutputs(patterns);
  }

  // ---------------------------------------------------------------------------
  // Scanning

  /** An existing edge from a state already leads to the longest trie suffix of its string extended by c. */
  lemma EdgeIsLongest(transition: seq<map<char, int>>, path: seq<string>, stateOf: map<string, int>, cur: int, c: char)
    requires IsAutomaton(transition, path, stateOf) && 0 <= cur < |path| && c in transition[cur]
    ensures 0 <= transition[cur][c] < |path| && IsLongestSuffix(stateOf, path[transition[cur][c]], path[cur] + [c])
  {
    var u := path[cur] + [c];
    var next := transition[cur][c];
    if cur != 0 || [c] in stateOf {
      assert path[0] + [c] == [c];
      assert path[next] == u;
      SuffixRefl(u);
    } else {
      EmptySuffix(u);
      forall v' | v' in stateOf && IsSuffix(v', u) ensures |v'| <= 0 {
        if |v'| > 0 {
          SuffixSplit(v', path[cur], c);
        }
      }
    }
  }

  /** The scan cursor: after reading text[..i] + [c], the state of the longest trie suffix of the text read. */
  lemma ScanStep(stateOf: map<string, int>, cur: string, read: string, c: char, v: string)
    requires forall u :: u in stateOf && |u| > 0 ==> u[..|u| - 1] in stateOf
    requires IsLongestSuffix(stateOf, cur, read)
    requires IsLongestSuffix(stateOf, v, cur + [c])
    ensures IsLongestSuffix(stateOf, v, read + [c])
  {
    SuffixSnoc(cur, read, c);
    SuffixTrans(v, cur + [c], read + [c]);
    forall v' | v' in stateOf && IsSuffix(v', read + [c]) ensures |v'| <= |v| {
      if |v'| > 0 {
        SuffixSplit(v', read, c);
        var v0 := v'[..|v'| - 1];
        SuffixOfSuffix(v0, cur, read);
        SuffixSnoc(v0, cur, c);
      }
    }
  }

  /** The patterns ending the text read are exactly those ending the longest trie suffix of it. */
  lemma OutputsOfLongest(patterns: seq<string>, stateOf: map<string, int>, v: string, read: string)
    requires PrefixesOf(patterns, |patterns|) <= stateOf.Keys
    requires IsLongestSuffix(stateOf, v, read)
    ensures AllOutputs(patterns, v) == AllOutputs(patterns, read)
  {
    forall w | 0 <= w < |patterns| && IsSuffix(patterns[w], read) ensures IsSuffix(patterns[w], v) {
      PatternsAreKeys(patterns, w);
      SuffixOfSuffix(patterns[w], v, read);
    }
    forall w | 0 <= w < |patterns| && IsSuffix(patterns[w], v) ensures IsSuffix(patterns[w], read) {
      SuffixTrans(patterns[w], v, read);
    }
  }

  /** One more text position adds the occurrence ending there, if the pattern is a suffix of the text so far. */
  lemma OccurrencesStep(text: string, pat: string, i: nat)
    requires |pat| >= 1 && i < |text|
    ensures OccurrencesBefore(text, pat, i + 1) ==
            OccurrencesBefore(text, pat, i) + (if IsSuffix(pat, text[..i + 1]) then [i - |pat| + 1] else [])
  {
    EndingAtIsSuffix(text, pat, i + 1);
  }

  /** With no pattern ending at position i, no occurrence list grows. */
  lemma NoOccurrenceEnds(patterns: seq<string>, text: string, i: nat)
    requires ValidPatterns(patterns) && i < |text| && AllOutputs(patterns, text[..i + 1]) == {}
    ensures forall w :: 0 <= w < |patterns| ==> OccurrencesBefore(text, patterns[w], i + 1) == OccurrencesBefore(text, patterns[w], i)
  {
    forall w | 0 <= w < |patterns|
      ensures OccurrencesBefore(text, patterns[w], i + 1) == OccurrencesBefore(text, patterns[w], i)
    {
      assert w !in AllOutputs(patterns, text[..i + 1]);
      OccurrencesStep(text, patterns[w], i);
    }
  }

  /** One scan step: follow the edge for c if there is one, otherwise fall back along suffix links first. */
  method Advance(transition: seq<map<char, int>>, suffixLink: array<int>, currentState: int, c: char,
                 ghost path: seq<string>, ghost stateOf: map<string, int>)
    returns (next: int)
    requires IsAutomaton(transition, path, stateOf) && suffixLink.Length == |path|
    requires 0 <= currentState < |path| && (c as int) < C
    requires LinksUpTo(path, stateOf, suffixLink[..], |path[currentState]|)
    ensures 0 <= next < |path| && IsLongestSuffix(stateOf, path[next], path[currentState] + [c])
  {
    if c in transition[currentState] {
      EdgeIsLongest(transition, path, stateOf, currentState, c);
      next := transition[currentState][c];
    } else {
      next := FallBack(transition, suffixLink, currentState, c, path, stateOf);
    }
  }

  /** Pattern `word` gains the occurrence ending at position i exactly when it is in the output set for text[..i + 1]. */
  lemma ReportOne(patterns: seq<string>, matching: set<int>, text: string, i: nat, word: nat)
    requires ValidPatterns(patterns) && i < |text| && word < |patterns|
    requires matching == AllOutputs(patterns, text[..i + 1])
    ensures OccurrencesBefore(text, patterns[word], i + 1) ==
            OccurrencesBefore(text, patterns[word], i) + (if word in matching then [i - |patterns[word]| + 1] else [])
  {
    OccurrencesStep(text, patterns[word], i);
  }

  /** Record, for every pattern in the output set of the current state, the occurrence ending at position i. */
  method Report(patterns: seq<string>, matching: set<int>, text: string, i: int, result0: seq<seq<int>>)
    returns (result: seq<seq<int>>)
    requires ValidPatterns(patterns) && 0 <= i < |text| && |result0| == |patterns|
    requires matching == AllOutputs(patterns, text[..i + 1])
    requires forall w :: 0 <= w < |patterns| ==> result0[w] == OccurrencesBefore(text, patterns[w], i)
    ensures |result| == |patterns|
    ensures forall w :: 0 <= w < |patterns| ==> result[w] == OccurrencesBefore(text, patterns[w], i + 1)
  {
    result := result0;
    for word := 0 to |patterns|
      invariant |result| == |patterns|
      invariant forall w :: 0 <= w < word ==> result[w] == OccurrencesBefore(text, patterns[w], i + 1)
      invariant forall w :: word <= w < |patterns| ==> result[w] == OccurrencesBefore(text, patterns[w], i)
    {
      ReportOne(patterns, matching, text, i, word);
      if word in matching {
        var position := i - |patterns[word]| + 1;
        result := result[word := result[word] + [position]];
      }
    }
  }

  /**
   * Scan the text once with the completed automaton; after each character,
   * every pattern in the current state's output set has an occurrence
   * ending there.
   */
  method Scan(patterns: seq<string>, transition: seq<map<char, int>>, suffixLink: array<int>,
              matchSet: seq<set<int>>, text: string, ghost path: seq<string>, ghost stateOf: map<string, int>)
    returns (result: seq<seq<int>>)
    requires ValidPatterns(patterns) && IsAutomaton(transition, path, stateOf) && InAlphabet(text)
    requires stateOf.Keys == PrefixesOf(patterns, |patterns|)
    requires suffixLink.Length == |path| && |matchSet| == |path|
    requires LinksComplete(patterns, path, stateOf, suffixLink[..], matchSet)
    ensures |result| == |patterns|
    ensures forall w :: 0 <= w < |patterns| ==> result[w] == Occurrences(text, patterns[w])
  {
    result := seq(|patterns|, _ => []);
    var currentState := 0;
    EmptySuffix(text[..0]);
    for i := 0 to |text|
      invariant 0 <= currentState < |path| && IsLongestSuffix(stateOf, path[currentState], text[..i])
      invariant |result| == |patterns|
      invariant forall w :: 0 <= w < |patterns| ==> result[w] == OccurrencesBefore(text, patterns[w], i)
    {
      var character := text[i];
      var before := currentState;
      currentState := Advance(transition, suffixLink, currentState, character, path, stateOf);
      PrefixSnoc(text, i);
      ScanStep(stateOf, path[before], text[..i], character, path[currentState]);
      OutputsOfLongest(patterns, stateOf, path[currentState], text[..i + 1]);
      assert matchSet[currentState] == AllOutputs(patterns, text[..i + 1]);
      if matchSet[currentState] == {} {
        NoOccurrenceEnds(patterns, text, i);
        continue;
      }
      var matching := matchSet[currentState];
      result := Report(patterns, matching, text, i, result);
    }
    assert text[..|text|] == text;
  }

  /**
   * Aho-Corasick find: for non-empty patterns over characters below C and a
   * text over the same characters, result[w] lists every start offset of
   * pattern w in the text, in increasing order, overlaps included.
   */
  method Find(patterns: seq<string>, text: string) returns (result: seq<seq<int>>)
    requires ValidPatterns(patterns) && InAlphabet(text)
    ensures |result| == |patterns|
    ensures forall w :: 0 <= w < |patterns| ==> result[w] == Occurrences(text, patterns[w])
    ensures forall w, p :: 0 <= w < |patterns| ==> (p in result[w] <==> OccursAt(text, patterns[w], p))
    ensures forall w :: 0 <= w < |patterns| ==> StrictlyIncreasing(result[w])
  {
    var transition, matchSet, path, stateOf := BuildTrie(patterns);
    PrefixesInAlphabet(patterns);
    var suffixLink, q;
    transition, suffixLink, q := CompleteRoot(transition, path, stateOf);
    matchSet := BuildLinks(patterns, transition, suffixLink, matchSet, q, path, stateOf);
    result := Scan(patterns, transition, suffixLink, matchSet, text, path, stateOf);
    forall w | 0 <= w < |patterns|
      ensures (forall p :: p in result[w] <==> OccursAt(text, patterns[w], p)) && StrictlyIncreasing(result[w])
    {
      OccurrencesSpec(text, patterns[w]);
    }
  }
}
