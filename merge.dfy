/**
 * `mergeArgs` and `mergeEnv` of `TargetsModel`, and what repeated merging
 * along a chain of enclosing scopes produces.
 */
module Merge {
  import opened Options
  import opened JsStrings
  import opened JsMaps
  import opened Nodes

  /** The trimmed string as a list of at most one word: nothing when it is blank. */
  function Word(s: string): (r: seq<string>)
    ensures |r| <= 1 && (r == [] <==> Trim(s) == "")
  {
    if Trim(s) != "" then [Trim(s)] else []
  }

  /**
   * `mergeArgs(parentArgs, childArgs)`: trim both and join the non-blank
   * ones with one space, parent first.
   */
  function MergeArgs(parentArgs: string, childArgs: string): (r: string)
    ensures IsTrimmed(r)
    ensures r == "" <==> Trim(parentArgs) == "" && Trim(childArgs) == ""
    ensures Trim(childArgs) == "" ==> r == Trim(parentArgs)
    ensures Trim(parentArgs) == "" ==> r == Trim(childArgs)
    ensures Trim(parentArgs) != "" && Trim(childArgs) != "" ==>
      r == Trim(parentArgs) + " " + Trim(childArgs)
  {
    Join(Word(parentArgs) + Word(childArgs), " ")
  }

  /**
   * `mergeEnv(parentEnv, childEnv)`: a fresh map holding the parent's entries
   * with every child entry set on top. The child's value wins on a shared
   * key, every other parent entry is kept, and nothing else is added; the
   * parent's keys keep their order and the child's new keys follow in the
   * child's order.
   */
  function MergeEnv(parentEnv: Env, childEnv: Env): (r: Env)
    ensures forall k :: Get(r, k) == if Get(childEnv, k).Some? then Get(childEnv, k) else Get(parentEnv, k)
    ensures Keys(r) == Keys(parentEnv) + NewKeys(Keys(parentEnv), Keys(childEnv))
  {
    SetAll(parentEnv, childEnv)
  }

  /** The merged keys are exactly the parent's and the child's. */
  lemma MergeEnvKeys(parentEnv: Env, childEnv: Env, k: string)
    ensures k in Keys(MergeEnv(parentEnv, childEnv)) <==> k in Keys(parentEnv) || k in Keys(childEnv)
  {
    var r := MergeEnv(parentEnv, childEnv);
    assert Get(r, k) == if Get(childEnv, k).Some? then Get(childEnv, k) else Get(parentEnv, k);
  }

  /** Merging the same child environment twice is the same as merging it once. */
  lemma MergeEnvIdempotent(parentEnv: Env, childEnv: Env)
    ensures MergeEnv(MergeEnv(parentEnv, childEnv), childEnv) == MergeEnv(parentEnv, childEnv)
  {
    SetAllPresent(MergeEnv(parentEnv, childEnv), childEnv);
  }

  /** The non-blank scopes, trimmed, outermost first. */
  function Words(scopes: seq<string>): seq<string>
  {
    if scopes == [] then [] else Word(scopes[0]) + Words(scopes[1..])
  }

  lemma WordsAppend(a: seq<string>, b: seq<string>)
    ensures Words(a + b) == Words(a) + Words(b)
  {
    FlatMapAppend(Word, a, b);
    WordsIsFlatMap(a + b);
    WordsIsFlatMap(a);
    WordsIsFlatMap(b);
  }

  function FlatMap<A, B>(f: A -> seq<B>, s: seq<A>): seq<B>
  {
    if s == [] then [] else f(s[0]) + FlatMap(f, s[1..])
  }

  lemma {:induction false} WordsIsFlatMap(s: seq<string>)
    ensures Words(s) == FlatMap(Word, s)
  {
    if s != [] {
      WordsIsFlatMap(s[1..]);
    }
  }

  lemma {:induction false} FlatMapAppend<A, B>(f: A -> seq<B>, a: seq<A>, b: seq<A>)
    ensures FlatMap(f, a + b) == FlatMap(f, a) + FlatMap(f, b)
  {
    if a == [] {
      assert a + b == b;
    } else {
      assert (a + b)[0] == a[0];
      assert (a + b)[1..] == a[1..] + b;
      FlatMapAppend(f, a[1..], b);
    }
  }

  /** The args of a target whose enclosing scopes carry `scopes`: the left fold of `mergeArgs`. */
  function FoldArgs(acc: string, scopes: seq<string>): string
    decreases scopes
  {
    if scopes == [] then acc else FoldArgs(MergeArgs(acc, scopes[0]), scopes[1..])
  }

  /** The env of a target whose enclosing scopes carry `scopes`: the left fold of `mergeEnv`. */
  function FoldEnv(acc: Env, scopes: seq<Env>): Env
    decreases scopes
  {
    if scopes == [] then acc else FoldEnv(MergeEnv(acc, scopes[0]), scopes[1..])
  }

  /**
   * Folding `mergeArgs` over a non-empty chain of scopes yields every
   * non-blank scope's args, trimmed, outermost first, separated by exactly
   * one space.
   */
  lemma {:induction false} FoldArgsJoinsWords(acc: string, scopes: seq<string>)
    requires scopes != []
    ensures FoldArgs(acc, scopes) == Join(Words([acc] + scopes), " ")
    decreases scopes
  {
    var m := MergeArgs(acc, scopes[0]);
    var rest := scopes[1..];
    var p := Word(acc) + Word(scopes[0]);
    WordsOfCons2(acc, scopes);
    if rest == [] {
      assert p + Words(rest) == p;
    } else {
      FoldArgsJoinsWords(m, rest);
      assert Words([m] + rest) == Word(m) + Words(rest) by {
        assert ([m] + rest)[1..] == rest;
      }
      JoinMergedWords(acc, scopes[0], Words(rest));
    }
  }

  /**
   * A target's args split at any enclosing scope: the words of the outer
   * chain, starting from `acc`, come first, then the words of the inner one.
   */
  lemma FoldArgsSplit(acc: string, outer: seq<string>, inner: seq<string>)
    requires inner != []
    ensures FoldArgs(acc, outer + inner) == Join(Words([acc] + outer) + Words(inner), " ")
  {
    FoldArgsJoinsWords(acc, outer + inner);
    ConsAppend(acc, outer, inner);
    WordsAppend([acc] + outer, inner);
  }

  lemma ConsAppend<T>(x: T, a: seq<T>, b: seq<T>)
    ensures [x] + (a + b) == ([x] + a) + b
  {
  }

  /** The words of a chain with two scopes in front. */
  lemma WordsOfCons2(acc: string, scopes: seq<string>)
    requires scopes != []
    ensures Words([acc] + scopes) == Word(acc) + Word(scopes[0]) + Words(scopes[1..])
  {
    WordsIsFlatMap([acc] + scopes);
    WordsIsFlatMap(scopes[1..]);
    FlatMapCons2(Word, acc, scopes);
  }

  lemma FlatMapCons2<A, B>(f: A -> seq<B>, x: A, s: seq<A>)
    requires s != []
    ensures FlatMap(f, [x] + s) == f(x) + f(s[0]) + FlatMap(f, s[1..])
  {
    assert ([x] + s)[1..] == s;
  }

  /** Joining the merged args with further words is joining all the words. */
  lemma JoinMergedWords(a: string, b: string, w: seq<string>)
    ensures Join(Word(MergeArgs(a, b)) + w, " ") == Join(Word(a) + Word(b) + w, " ")
  {
    var m := MergeArgs(a, b);
    var p := Word(a) + Word(b);
    TrimFixpoint(m);
    if p == [] {
      assert m == "";
    } else if w == [] {
      assert Word(m) == [m];
      assert Word(m) + w == [m];
      assert p + w == p;
    } else {
      assert Word(m) == [m];
      JoinAppend([m], w, " ");
      JoinAppend(p, w, " ");
    }
  }

  /** `mergeArgs` is associative, so the order in which scopes are folded does not matter. */
  lemma MergeArgsAssociative(a: string, b: string, c: string)
    ensures MergeArgs(MergeArgs(a, b), c) == MergeArgs(a, MergeArgs(b, c))
  {
    var wbc := Word(b) + Word(c);
    var bc := MergeArgs(b, c);
    assert bc == Join(wbc, " ");
    FoldTwo(a, b, c);
    FoldArgsJoinsWords(a, [b, c]);
    ThreeWords(a, b, c);
    MergeArgsOfJoined(a, wbc);
  }

  lemma FoldTwo(a: string, b: string, c: string)
    ensures FoldArgs(a, [b, c]) == MergeArgs(MergeArgs(a, b), c)
  {
    assert [b, c][1..] == [c];
    assert [c][1..] == [];
    assert FoldArgs(a, [b, c]) == FoldArgs(MergeArgs(a, b), [c]);
    assert FoldArgs(MergeArgs(a, b), [c]) == FoldArgs(MergeArgs(MergeArgs(a, b), c), []);
  }

  lemma FoldEnvTwo(a: Env, b: Env, c: Env)
    ensures FoldEnv(a, [b, c]) == MergeEnv(MergeEnv(a, b), c)
  {
    assert [b, c][1..] == [c];
    assert [c][1..] == [];
    assert FoldEnv(a, [b, c]) == FoldEnv(MergeEnv(a, b), [c]);
    assert FoldEnv(MergeEnv(a, b), [c]) == FoldEnv(MergeEnv(MergeEnv(a, b), c), []);
  }

  lemma ThreeWords(a: string, b: string, c: string)
    ensures Words([a] + [b, c]) == Word(a) + (Word(b) + Word(c))
  {
    assert [a] + [b, c] == [a, b, c];
    WordsIsFlatMap([a, b, c]);
    FlatMapThree(Word, a, b, c);
  }

  lemma FlatMapThree<A, B>(f: A -> seq<B>, a: A, b: A, c: A)
    ensures FlatMap(f, [a, b, c]) == f(a) + (f(b) + f(c))
  {
    assert [a, b, c][1..] == [b, c];
    assert [b, c][1..] == [c];
    assert [c][1..] == [];
    assert FlatMap(f, [c]) == f(c) + [] == f(c);
    assert FlatMap(f, [b, c]) == f(b) + f(c);
  }

  /** Merging with an already merged pair of scopes joins all their words. */
  lemma MergeArgsOfJoined(a: string, w: seq<string>)
    requires Join(w, " ") == "" <==> w == []
    requires IsTrimmed(Join(w, " "))
    ensures MergeArgs(a, Join(w, " ")) == Join(Word(a) + w, " ")
  {
    var j := Join(w, " ");
    TrimFixpoint(j);
    if w == [] {
      assert Word(j) == [];
      assert Word(a) + w == Word(a);
    } else {
      assert Word(j) == [j];
      if Word(a) == [] {
        assert Word(a) + w == w;
      } else {
        JoinAppend(Word(a), [j], " ");
        JoinAppend(Word(a), w, " ");
      }
    }
  }

  /**
   * The innermost scope that defines `k` supplies its value; when none does,
   * the starting environment's value stays.
   */
  function Innermost(acc: Env, scopes: seq<Env>, k: string): Option<string>
  {
    if scopes == [] then Get(acc, k)
    else if Get(scopes[|scopes| - 1], k).Some? then Get(scopes[|scopes| - 1], k)
    else Innermost(acc, scopes[..|scopes| - 1], k)
  }

  lemma {:induction false} FoldEnvSnoc(acc: Env, scopes: seq<Env>, e: Env)
    ensures FoldEnv(acc, scopes + [e]) == MergeEnv(FoldEnv(acc, scopes), e)
    decreases scopes
  {
    if scopes != [] {
      assert (scopes + [e])[1..] == scopes[1..] + [e];
      FoldEnvSnoc(MergeEnv(acc, scopes[0]), scopes[1..], e);
    } else {
      assert ([] + [e])[1..] == [];
    }
  }

  /** Folding `mergeEnv` over a chain of scopes: the innermost definition of each key wins. */
  lemma {:induction false} FoldEnvInnermost(acc: Env, scopes: seq<Env>, k: string)
    ensures Get(FoldEnv(acc, scopes), k) == Innermost(acc, scopes, k)
    decreases |scopes|
  {
    if scopes != [] {
      var init := scopes[..|scopes| - 1];
      assert scopes == init + [scopes[|scopes| - 1]];
      FoldEnvSnoc(acc, init, scopes[|scopes| - 1]);
      FoldEnvInnermost(acc, init, k);
    }
  }
}
