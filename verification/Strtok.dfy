/** lib-clib/src/strtok.cpp: tokens are cut out of the string in place, between calls only `last` is kept. */
module Strtok {
  import opened Words
  import opened Text

  const NULL := -1

  // ---------------------------------------------------------------- one call

  function Delims(d: string): (r: set<char>)
    ensures forall c :: c in r <==> c in d
  {
    set c | c in d
  }

  /** `p` points into memory, which ends with a terminator. */
  predicate Terminated(m: string, p: nat) {
    p < |m| && m[|m| - 1] == NUL
  }

  /** The first character from `i` on that is no delimiter. */
  function Skip(m: string, i: nat, d: set<char>): (r: nat)
    requires NUL !in d && Terminated(m, i)
    ensures i <= r < |m| && m[r] !in d && Terminated(m, r)
    ensures forall k :: i <= k < r ==> m[k] in d
    decreases |m| - i
  {
    if m[i] in d then Skip(m, i + 1, d) else i
  }

  /** The first delimiter or terminator from `i` on. */
  function TokenEnd(m: string, i: nat, d: set<char>): (r: nat)
    requires Terminated(m, i)
    ensures i <= r < |m| && (m[r] == NUL || m[r] in d) && Terminated(m, r)
    ensures forall k :: i <= k < r ==> m[k] != NUL && m[k] !in d
    decreases |m| - i
  {
    if m[i] == NUL || m[i] in d then i else TokenEnd(m, i + 1, d)
  }

  datatype Run = Run(start: nat, end: nat)

  /** The pointers returned are the starts of the runs, in order. */
  ghost predicate StartsOf(toks: seq<int>, runs: seq<Run>) {
    |toks| == |runs| && forall k :: 0 <= k < |runs| ==> toks[k] == runs[k].start
  }

  /** The token and its end, and the new `last`. */
  datatype Call = Call(tok: int, end: int, last: int)

  /** A call that starts at `p`. */
  function Cut(m: string, p: nat, d: set<char>): (c: Call)
    requires NUL !in d && Terminated(m, p)
    ensures c.tok != NULL ==> p <= c.tok < c.end < |m|
    ensures c.last != NULL ==> c.tok != NULL && c.last == c.end + 1 && Terminated(m, c.last)
  {
    var i := Skip(m, p, d);
    if m[i] == NUL then Call(NULL, NULL, NULL)
    else
      var j := TokenEnd(m, i + 1, d);
      Call(i, j, if m[j] == NUL then NULL else j + 1)
  }

  /** A delimiter that ended a token is overwritten; a terminator stays as it is. */
  function Overwrite(m: string, c: Call): string
    requires c.tok != NULL ==> 0 <= c.end < |m|
  {
    if c.tok == NULL then m else m[c.end := NUL]
  }

  class Tokenizer {
    const mem: array<char>
    /** The static `last`. */
    var last: int

    ghost predicate Valid()
      reads this, mem
    {
      last == NULL || (0 <= last && Terminated(mem[..], last))
    }

    constructor (mem: array<char>)
      ensures Valid() && last == NULL && this.mem == mem
    {
      this.mem, last := mem, NULL;
    }

    /** The inner loop: is `c` among the delimiters? */
    method IsDelimiter(c: char, d: string) returns (found: bool)
      ensures found <==> c in d
    {
      for k := 0 to |d|
        invariant c !in d[..k]
      {
        if c == d[k] {
          return true;
        }
      }
      found := false;
    }

    /** The loop over leading delimiters. */
    method SkipDelimiters(start: nat, d: string) returns (p: nat)
      requires NUL !in d && Terminated(mem[..], start)
      ensures p == Skip(mem[..], start, Delims(d))
    {
      p := start;
      var skipping := true;
      while skipping
        invariant start <= p < mem.Length && Terminated(mem[..], p)
        invariant Skip(mem[..], p, Delims(d)) == Skip(mem[..], start, Delims(d))
        invariant !skipping ==> mem[p] !in d
        decreases skipping, mem.Length - p
      {
        skipping := IsDelimiter(mem[p], d);
        if skipping {
          p := p + 1;
        }
      }
    }

    /** The loop over the token; the terminator is among the delimiters it looks for. */
    method FindEnd(start: nat, d: string) returns (p: nat)
      requires Terminated(mem[..], start)
      ensures p == TokenEnd(mem[..], start, Delims(d))
    {
      p := start;
      while true
        invariant start <= p < mem.Length && Terminated(mem[..], p)
        invariant TokenEnd(mem[..], p, Delims(d)) == TokenEnd(mem[..], start, Delims(d))
        decreases mem.Length - p
      {
        var found := IsDelimiter(mem[p], d);
        if found || mem[p] == NUL {
          return;
        }
        p := p + 1;
      }
    }

    method Strtok(s: int, d: string) returns (tok: int)
      requires Valid() && NUL !in d && (s == NULL || (0 <= s && Terminated(mem[..], s)))
      modifies this, mem
      ensures Valid()
      ensures var p := if s == NULL then old(last) else s;
              if p == NULL then tok == NULL && last == NULL && mem[..] == old(mem[..])
              else
                var c := Cut(old(mem[..]), p, Delims(d));
                tok == c.tok && last == c.last && mem[..] == Overwrite(old(mem[..]), c)
    {
      var p := if s == NULL then last else s;
      if p == NULL {
        return NULL;
      }
      tok := SkipDelimiters(p, d);
      if mem[tok] == NUL {
        last := NULL;
        return NULL;
      }
      var end := FindEnd(tok + 1, d);
      if mem[end] == NUL {
        last := NULL;
      } else {
        TerminatorKept(mem[..], end);
        mem[end] := NUL;
        last := end + 1;
      }
    }

    /** A client that cuts a whole string into tokens, and the null pointer that ends it. */
    method AllTokens(s: nat, d: string) returns (toks: seq<int>)
      requires Valid() && NUL !in d && Terminated(mem[..], s)
      modifies this, mem
      ensures Valid() && last == NULL
      ensures StartsOf(toks, Runs(old(mem[..]), s, Delims(d)))
      ensures RunsInside(old(mem[..]), s, Delims(d)) && mem[..] == CutAt(old(mem[..]), Runs(old(mem[..]), s, Delims(d)))
    {
      RunsBounded(mem[..], s, Delims(d));
      ghost var m, runs := mem[..], Runs(mem[..], s, Delims(d));
      var tok := FirstToken(runs, s, d);
      toks := RestOfTokens(m, runs, tok, d);
    }

    /** From the first token on, the calls with a null pointer. */
    method RestOfTokens(ghost m: string, ghost runs: seq<Run>, first: int, d: string) returns (toks: seq<int>)
      requires Valid() && Midway(m, mem[..], runs, 0, first, last, Delims(d))
      modifies this, mem
      ensures Valid() && last == NULL && StartsOf(toks, runs)
      ensures (forall i :: 0 <= i < |runs| ==> runs[i].end < |m|) && mem[..] == CutAt(m, runs)
    {
      toks := [];
      ghost var k := 0;
      var tok := first;
      while tok != NULL
        invariant Valid() && k <= |runs| && StartsOf(toks, runs[..k])
        invariant Midway(m, mem[..], runs, k, tok, last, Delims(d))
        decreases |runs| - k
      {
        assert runs[..k + 1] == runs[..k] + [runs[k]];
        toks := toks + [tok];
        tok := NextToken(m, runs, k, tok, d);
        k := k + 1;
      }
      assert runs[..k] == runs;
    }

    /** The call with the string. */
    method FirstToken(ghost runs: seq<Run>, s: nat, d: string) returns (tok: int)
      requires Valid() && NUL !in d && Terminated(mem[..], s)
      requires runs == Runs(mem[..], s, Delims(d)) && RunsInside(mem[..], s, Delims(d))
      modifies this, mem
      ensures Valid() && Midway(old(mem[..]), mem[..], runs, 0, tok, last, Delims(d))
    {
      Advance(mem[..], mem[..], runs, 0, s, Delims(d));
      tok := Strtok(s, d);
    }

    /** The call with a null pointer after the token of run `k`. */
    method NextToken(ghost m: string, ghost runs: seq<Run>, ghost k: nat, tok: int, d: string) returns (tok': int)
      requires Valid() && tok != NULL && Midway(m, mem[..], runs, k, tok, last, Delims(d))
      modifies this, mem
      ensures Valid() && Midway(m, mem[..], runs, k + 1, tok', last, Delims(d))
    {
      ghost var m', p := mem[..], last;
      if p != NULL { SameCut(m, m', runs[..k + 1], p, Delims(d)); }
      tok' := Strtok(NULL, d);
      if p != NULL {
        Advance(m, m', runs, k + 1, p, Delims(d));
      } else {
        assert runs[..k + 1] == runs;
      }
    }
  }

  /**
   * Between two calls: `tok` is the start of run `k`, everything up to its end is cut, the rest is to come.
   * Without a token all runs are cut.
   */
  ghost predicate Midway(m: string, m': string, runs: seq<Run>, k: nat, tok: int, last: int, d: set<char>) {
    && NUL !in d && (forall i :: 0 <= i < |runs| ==> runs[i].end < |m|)
    && if tok == NULL then last == NULL && k == |runs| && m' == CutAt(m, runs)
       else
         && k < |runs| && tok == runs[k].start
         && m' == CutAt(m, runs[..k + 1])
         && (forall i :: 0 <= i <= k && last != NULL ==> runs[i].end < last)
         && (if last == NULL then k + 1 == |runs|
             else last == runs[k].end + 1 && Terminated(m, last) && runs[k + 1..] == Runs(m, last, d))
  }

  lemma Advance(m: string, m': string, runs: seq<Run>, k: nat, p: nat, d: set<char>)
    requires NUL !in d && Terminated(m, p) && k <= |runs| && runs[k..] == Runs(m, p, d)
    requires (forall i :: 0 <= i < |runs| ==> runs[i].end < |m|) && m' == CutAt(m, runs[..k])
    requires (forall i :: 0 <= i < k ==> runs[i].end < p)
    ensures var c := Cut(m, p, d); c.tok != NULL ==> c.end < |m'|
    ensures var c := Cut(m, p, d); Midway(m, Overwrite(m', c), runs, k, c.tok, c.last, d)
  {
    NextRun(m, runs, k, p, d);
  }

  lemma TerminatorKept(m: string, p: nat)
    requires Terminated(m, p) && m[p] != NUL
    ensures Terminated(m[p := NUL], p + 1)
  {
  }

  // ---------------------------------------------------------------- all calls on a string

  /** Start and end of every token the calls on the string at `p` return. */
  function Runs(m: string, p: nat, d: set<char>): seq<Run>
    requires NUL !in d && Terminated(m, p)
    decreases |m| - p
  {
    var c := Cut(m, p, d);
    if c.tok == NULL then []
    else [Run(c.tok, c.end)] + if c.last == NULL then [] else Runs(m, c.last, d)
  }

  /** Tokens are not empty, lie inside the string and follow each other. */
  ghost predicate RunsInside(m: string, p: nat, d: set<char>)
    requires NUL !in d && Terminated(m, p)
  {
    var r := Runs(m, p, d);
    && (forall k :: 0 <= k < |r| ==> p <= r[k].start < r[k].end < |m|)
    && (forall k, l :: 0 <= k < l < |r| ==> r[k].end < r[l].start)
  }

  lemma {:induction false} RunsBounded(m: string, p: nat, d: set<char>)
    requires NUL !in d && Terminated(m, p)
    ensures RunsInside(m, p, d)
    decreases |m| - p
  {
    var c := Cut(m, p, d);
    if c.last != NULL { RunsBounded(m, c.last, d); }
  }

  /** A terminator over the character behind each run. */
  function CutAt(m: string, runs: seq<Run>): (r: string)
    requires forall k :: 0 <= k < |runs| ==> runs[k].end < |m|
    ensures |r| == |m|
  {
    if runs == [] then m else CutAt(m, runs[..|runs| - 1])[runs[|runs| - 1].end := NUL]
  }

  /** Only the characters behind the runs are overwritten. */
  lemma {:induction false} CutAtExactly(m: string, runs: seq<Run>, q: nat)
    requires (forall k :: 0 <= k < |runs| ==> runs[k].end < |m|) && q < |m|
    ensures CutAt(m, runs)[q] == if exists k :: 0 <= k < |runs| && runs[k].end == q then NUL else m[q]
  {
    if runs == [] {
    } else {
      var t := runs[..|runs| - 1];
      CutAtExactly(m, t, q);
      assert forall k :: 0 <= k < |t| ==> t[k] == runs[k];
    }
  }

  lemma CutAtBefore(m: string, runs: seq<Run>, p: nat)
    requires forall k :: 0 <= k < |runs| ==> runs[k].end < p && runs[k].end < |m|
    ensures forall q :: p <= q < |m| ==> CutAt(m, runs)[q] == m[q]
  {
    forall q | p <= q < |m| ensures CutAt(m, runs)[q] == m[q] {
      CutAtExactly(m, runs, q);
    }
  }

  lemma {:induction false} SameScan(m: string, m': string, p: nat, d: set<char>)
    requires NUL !in d && Terminated(m, p) && |m| == |m'| && forall q :: p <= q < |m| ==> m'[q] == m[q]
    ensures Terminated(m', p) && Skip(m', p, d) == Skip(m, p, d) && TokenEnd(m', p, d) == TokenEnd(m, p, d)
    decreases |m| - p
  {
    if m[p] != NUL { SameScan(m, m', p + 1, d); }
  }

  /** A call on memory in which only what lies before `p` was cut does what it does on the original string. */
  lemma SameCut(m: string, m': string, runs: seq<Run>, p: nat, d: set<char>)
    requires NUL !in d && Terminated(m, p) && (forall k :: 0 <= k < |runs| ==> runs[k].end < p) && m' == CutAt(m, runs)
    ensures Terminated(m', p) && Cut(m', p, d) == Cut(m, p, d)
  {
    CutAtBefore(m, runs, p);
    SameScan(m, m', p, d);
    var i := Skip(m, p, d);
    if m[i] != NUL { SameScan(m, m', i + 1, d); }
  }

  lemma NextRun(m: string, runs: seq<Run>, k: nat, p: nat, d: set<char>)
    requires NUL !in d && Terminated(m, p) && k <= |runs| && runs[k..] == Runs(m, p, d)
    requires forall i :: 0 <= i < |runs| ==> runs[i].end < |m|
    ensures var c := Cut(m, p, d);
            if c.tok == NULL then k == |runs| && runs[..k] == runs
            else
              && k < |runs| && runs[k] == Run(c.tok, c.end)
              && CutAt(m, runs[..k + 1]) == CutAt(m, runs[..k])[c.end := NUL]
              && (if c.last == NULL then k + 1 == |runs| else runs[k + 1..] == Runs(m, c.last, d))
  {
    var c := Cut(m, p, d);
    if c.tok != NULL {
      assert runs[k] == runs[k..][0] && runs[k + 1..] == runs[k..][1..];
      assert runs[..k + 1][..k] == runs[..k];
    }
  }

  // ---------------------------------------------------------------- maximal runs

  /** A maximal run of characters that are no delimiters, in the string from `p` to its terminator at `e`. */
  ghost predicate IsRun(m: string, p: nat, e: nat, d: set<char>, i: nat, j: nat)
    requires p <= e < |m|
  {
    && p <= i < j <= e
    && (forall k :: i <= k < j ==> m[k] !in d)
    && (i == p || m[i - 1] in d)
    && (j == e || m[j] in d)
  }

  /** The string from `p` ends at `e`. */
  ghost predicate EndsAt(m: string, p: nat, e: nat) {
    p <= e < |m| && m[e] == NUL && forall k :: p <= k < e ==> m[k] != NUL
  }

  lemma FirstRun(m: string, p: nat, e: nat, d: set<char>, i: nat, j: nat)
    requires NUL !in d && EndsAt(m, p, e) && Terminated(m, p)
    ensures var c := Cut(m, p, d);
            if c.tok == NULL then !IsRun(m, p, e, d, i, j)
            else if c.last == NULL then IsRun(m, p, e, d, i, j) <==> (i == c.tok && j == c.end)
            else EndsAt(m, c.last, e)
                 && (IsRun(m, p, e, d, i, j) <==> (i == c.tok && j == c.end) || IsRun(m, c.last, e, d, i, j))
  {
    var c := Cut(m, p, d);
    SkipAtMost(m, p, d, e);
    if c.tok != NULL {
      EndAtMost(m, c.tok + 1, d, e);
      if IsRun(m, p, e, d, i, j) { RunNotAcross(m, p, e, d, i, j); }
    } else if IsRun(m, p, e, d, i, j) {
      SkipAtMost(m, p, d, i);
    }
  }

  lemma SkipAtMost(m: string, p: nat, d: set<char>, q: nat)
    requires NUL !in d && Terminated(m, p) && p <= q < |m| && m[q] !in d
    ensures Skip(m, p, d) <= q
  {
  }

  lemma EndAtMost(m: string, p: nat, d: set<char>, q: nat)
    requires Terminated(m, p) && p <= q < |m| && (m[q] == NUL || m[q] in d)
    ensures TokenEnd(m, p, d) <= q
  {
  }

  /** A run is the first token or begins behind it. */
  lemma RunNotAcross(m: string, p: nat, e: nat, d: set<char>, i: nat, j: nat)
    requires NUL !in d && EndsAt(m, p, e) && Terminated(m, p) && IsRun(m, p, e, d, i, j)
    requires Cut(m, p, d).tok != NULL && Cut(m, p, d).end <= e
    ensures var c := Cut(m, p, d); (i == c.tok && j == c.end) || c.end < i
  {
    var a, b := Cut(m, p, d).tok, Cut(m, p, d).end;
    SkipAtMost(m, p, d, i);
    if i <= b {
      assert i == a;
      EndAtMost(m, a + 1, d, j);
    }
  }

  /** The tokens returned are exactly the maximal delimiter-free runs. */
  lemma {:induction false} RunsAreMaximal(m: string, p: nat, e: nat, d: set<char>, i: nat, j: nat)
    requires NUL !in d && EndsAt(m, p, e) && Terminated(m, p)
    ensures Run(i, j) in Runs(m, p, d) <==> IsRun(m, p, e, d, i, j)
    decreases |m| - p
  {
    FirstRun(m, p, e, d, i, j);
    var c := Cut(m, p, d);
    if c.last != NULL { RunsAreMaximal(m, c.last, e, d, i, j); }
  }
}
