/** Where the InvokeAI root directory is (`get_root` in scripts/load_models.py):
    the `--root` argument, else the `INVOKEAI_ROOT` environment variable,
    else the `--root` line of the initialization file. The search for that
    line, `re.search('--root\s*=?\s*"?([^"]+)"?', line)`, is modelled as the
    backtracking matcher runs it: greedy repetitions try their longest form
    first, optional items try to be present first, and the leftmost starting
    position wins. The environment and the file system are parameters. */
module Root {
  import opened Common

  const Flag: string := "--root"

  /** `str.isspace`, which is also the class `\s` and the set `str.strip()`
      removes, for str patterns and strings. */
  predicate IsSpace(c: char) {
    var n := c as int;
    n == 0x20 || 0x09 <= n <= 0x0d || 0x1c <= n <= 0x1f || n == 0x85 || n == 0xa0 ||
    n == 0x1680 || 0x2000 <= n <= 0x200a || n == 0x2028 || n == 0x2029 ||
    n == 0x202f || n == 0x205f || n == 0x3000
  }

  predicate AllSpaces(s: string, i: nat, j: nat)
    requires i <= j <= |s|
  {
    forall k :: i <= k < j ==> IsSpace(s[k])
  }

  predicate FlagAt(s: string, p: nat) {
    p + |Flag| <= |s| && s[p..p + |Flag|] == Flag
  }

  /** An optional character `c` between `i` and `j`. */
  predicate OptChar(s: string, i: nat, j: nat, c: char)
    requires i <= j <= |s|
  {
    j == i || (j == i + 1 && s[i] == c)
  }

  /** `([^"]+)` matched greedily at `d`: a non-empty run of non-quote
      characters that runs up to a quote or to the end of the line. */
  predicate GroupAt(s: string, d: nat, g: string) {
    d + |g| <= |s| && g != [] && g == s[d..d + |g|] && '"' !in g &&
    (d + |g| == |s| || s[d + |g|] == '"')
  }

  // The regular expression read from the group backwards, one item at a
  // time: each predicate says that what follows position i can match the
  // rest of the pattern with `g` as the group.

  /** `"?([^"]+)` at `c` (the trailing `"?` matches whatever follows). */
  predicate QuoteThenGroup(s: string, c: nat, g: string)
    requires c <= |s|
  {
    exists d :: c <= d <= |s| && OptChar(s, c, d, '"') && GroupAt(s, d, g)
  }

  /** `\s*"?([^"]+)` at `b`. */
  predicate SpacesThenGroup(s: string, b: nat, g: string)
    requires b <= |s|
  {
    exists c :: b <= c <= |s| && AllSpaces(s, b, c) && QuoteThenGroup(s, c, g)
  }

  /** `=?\s*"?([^"]+)` at `a`. */
  predicate EqualsThenGroup(s: string, a: nat, g: string)
    requires a <= |s|
  {
    exists b :: a <= b <= |s| && OptChar(s, a, b, '=') && SpacesThenGroup(s, b, g)
  }

  /** `\s*=?\s*"?([^"]+)` at `q`. */
  predicate AfterFlag(s: string, q: nat, g: string)
    requires q <= |s|
  {
    exists a :: q <= a <= |s| && AllSpaces(s, q, a) && EqualsThenGroup(s, a, g)
  }

  /** The whole pattern matches at `p` with `g` as its group. */
  predicate Matches(s: string, p: nat, g: string) {
    FlagAt(s, p) && AfterFlag(s, p + |Flag|, g)
  }

  // ---------------------------------------------------------------------
  // The matcher

  /** Where the greedy `\s*` starting at `i` stops. */
  function SpaceEnd(s: string, i: nat): (e: nat)
    requires i <= |s|
    ensures i <= e <= |s| && AllSpaces(s, i, e)
    ensures e == |s| || !IsSpace(s[e])
    decreases |s| - i
  {
    if i < |s| && IsSpace(s[i]) then SpaceEnd(s, i + 1) else i
  }

  /** Where the greedy `[^"]+` starting at `i` stops. */
  function RunEnd(s: string, i: nat): (e: nat)
    requires i <= |s|
    ensures i <= e <= |s| && '"' !in s[i..e]
    ensures e == |s| || s[e] == '"'
    decreases |s| - i
  {
    if i < |s| && s[i] != '"' then
      var e := RunEnd(s, i + 1);
      assert s[i..e] == [s[i]] + s[i + 1..e];
      e
    else i
  }

  /** The first alternative that succeeds. */
  function First(x: Option<string>, y: Option<string>): (r: Option<string>)
    ensures r == x || r == y
    ensures r.None? <==> x.None? && y.None?
  {
    if x.Some? then x else y
  }

  /** `([^"]+)"?` at `d`. */
  function Group(s: string, d: nat): (r: Option<string>)
    requires d <= |s|
    ensures r.Some? <==> d < |s| && s[d] != '"'
    ensures r.Some? ==> GroupAt(s, d, r.value)
  {
    if d < |s| && s[d] != '"' then Some(s[d..RunEnd(s, d)]) else None
  }

  /** `"?` at `c`: the quote first, then without it. */
  function TryQuote(s: string, c: nat): Option<string>
    requires c <= |s|
  {
    First(if c < |s| && s[c] == '"' then Group(s, c + 1) else None, Group(s, c))
  }

  /** The second `\s*`, which has reached `c` from `b`, giving back one
      space at a time. */
  function TrySecondSpaces(s: string, b: nat, c: nat): Option<string>
    requires b <= c <= |s| && AllSpaces(s, b, c)
    decreases c - b
  {
    First(TryQuote(s, c), if b < c then TrySecondSpaces(s, b, c - 1) else None)
  }

  /** `=?` at `a`: the equals sign first, then without it. */
  function TryEquals(s: string, a: nat): Option<string>
    requires a <= |s|
  {
    First(if a < |s| && s[a] == '=' then TrySecondSpaces(s, a + 1, SpaceEnd(s, a + 1)) else None,
          TrySecondSpaces(s, a, SpaceEnd(s, a)))
  }

  /** The first `\s*`, which has reached `a` from `q`. */
  function TryFirstSpaces(s: string, q: nat, a: nat): Option<string>
    requires q <= a <= |s| && AllSpaces(s, q, a)
    decreases a - q
  {
    First(TryEquals(s, a), if q < a then TryFirstSpaces(s, q, a - 1) else None)
  }

  /** The group of the match starting at `p`, if the pattern matches there. */
  function MatchAt(s: string, p: nat): Option<string>
    requires p <= |s|
  {
    if FlagAt(s, p) then TryFirstSpaces(s, p + |Flag|, SpaceEnd(s, p + |Flag|)) else None
  }

  /** What the pattern gives at each start position of `s`, 0 to |s|. */
  function Attempts(s: string): (t: seq<Option<string>>)
    ensures |t| == |s| + 1
    ensures forall k :: 0 <= k <= |s| ==> t[k] == MatchAt(s, k)
  {
    seq(|s| + 1, k requires 0 <= k <= |s| => MatchAt(s, k))
  }

  /** The first attempt from `p` on that succeeds. */
  function FirstFound(t: seq<Option<string>>, p: nat): Option<string>
    requires p <= |t|
    decreases |t| - p
  {
    if p == |t| then None else First(t[p], FirstFound(t, p + 1))
  }

  /** `re.search(...).groups()[0]` for one line of the file, or None: the
      group of the leftmost start position at which the pattern matches. */
  function RootIn(line: string): Option<string> {
    FirstFound(Attempts(line), 0)
  }

  // ---------------------------------------------------------------------
  // What the matcher finds is a match

  lemma TryQuoteSound(s: string, c: nat)
    requires c <= |s|
    ensures TryQuote(s, c).Some? ==> QuoteThenGroup(s, c, TryQuote(s, c).value)
  {
    if c < |s| && s[c] == '"' && Group(s, c + 1).Some? {
      assert OptChar(s, c, c + 1, '"') && GroupAt(s, c + 1, TryQuote(s, c).value);
    } else if Group(s, c).Some? {
      assert OptChar(s, c, c, '"') && GroupAt(s, c, TryQuote(s, c).value);
    }
  }

  lemma {:induction false} TrySecondSpacesSound(s: string, b: nat, c: nat)
    requires b <= c <= |s| && AllSpaces(s, b, c)
    ensures TrySecondSpaces(s, b, c).Some? ==> SpacesThenGroup(s, b, TrySecondSpaces(s, b, c).value)
    decreases c - b
  {
    TryQuoteSound(s, c);
    if TryQuote(s, c).Some? {
      assert AllSpaces(s, b, c) && QuoteThenGroup(s, c, TrySecondSpaces(s, b, c).value);
    } else if b < c {
      TrySecondSpacesSound(s, b, c - 1);
    }
  }

  lemma TryEqualsSound(s: string, a: nat)
    requires a <= |s|
    ensures TryEquals(s, a).Some? ==> EqualsThenGroup(s, a, TryEquals(s, a).value)
  {
    if a < |s| && s[a] == '=' && TrySecondSpaces(s, a + 1, SpaceEnd(s, a + 1)).Some? {
      TrySecondSpacesSound(s, a + 1, SpaceEnd(s, a + 1));
      assert OptChar(s, a, a + 1, '=') && SpacesThenGroup(s, a + 1, TryEquals(s, a).value);
    } else {
      TrySecondSpacesSound(s, a, SpaceEnd(s, a));
      if TryEquals(s, a).Some? {
        assert OptChar(s, a, a, '=') && SpacesThenGroup(s, a, TryEquals(s, a).value);
      }
    }
  }

  lemma {:induction false} TryFirstSpacesSound(s: string, q: nat, a: nat)
    requires q <= a <= |s| && AllSpaces(s, q, a)
    ensures TryFirstSpaces(s, q, a).Some? ==> AfterFlag(s, q, TryFirstSpaces(s, q, a).value)
    decreases a - q
  {
    TryEqualsSound(s, a);
    if TryEquals(s, a).Some? {
      assert AllSpaces(s, q, a) && EqualsThenGroup(s, a, TryFirstSpaces(s, q, a).value);
    } else if q < a {
      TryFirstSpacesSound(s, q, a - 1);
    }
  }

  /** Whatever group the matcher returns at `p` is one the pattern allows
      there. */
  lemma MatchAtSound(s: string, p: nat)
    requires p <= |s|
    ensures MatchAt(s, p).Some? ==> Matches(s, p, MatchAt(s, p).value)
  {
    if FlagAt(s, p) {
      TryFirstSpacesSound(s, p + |Flag|, SpaceEnd(s, p + |Flag|));
    }
  }

  // ---------------------------------------------------------------------
  // Whenever the pattern can match, the matcher finds a match

  /** A run of spaces from `i` never goes past where the greedy `\s*` stops. */
  lemma SpacesWithin(s: string, i: nat, j: nat)
    requires i <= j <= |s| && AllSpaces(s, i, j)
    ensures j <= SpaceEnd(s, i)
  {
  }

  lemma TryQuoteComplete(s: string, c: nat, g: string)
    requires c <= |s| && QuoteThenGroup(s, c, g)
    ensures TryQuote(s, c).Some?
  {
    var d :| c <= d <= |s| && OptChar(s, c, d, '"') && GroupAt(s, d, g);
    assert s[d] == g[0];
  }

  lemma {:induction false} TrySecondSpacesComplete(s: string, b: nat, c: nat, c0: nat, g: string)
    requires b <= c0 <= c <= |s| && AllSpaces(s, b, c)
    requires QuoteThenGroup(s, c0, g)
    ensures TrySecondSpaces(s, b, c).Some?
    decreases c - c0
  {
    if c == c0 {
      TryQuoteComplete(s, c, g);
    } else {
      TrySecondSpacesComplete(s, b, c - 1, c0, g);
    }
  }

  lemma TryEqualsComplete(s: string, a: nat, g: string)
    requires a <= |s| && EqualsThenGroup(s, a, g)
    ensures TryEquals(s, a).Some?
  {
    var b :| a <= b <= |s| && OptChar(s, a, b, '=') && SpacesThenGroup(s, b, g);
    var c0 :| b <= c0 <= |s| && AllSpaces(s, b, c0) && QuoteThenGroup(s, c0, g);
    SpacesWithin(s, b, c0);
    TrySecondSpacesComplete(s, b, SpaceEnd(s, b), c0, g);
  }

  lemma {:induction false} TryFirstSpacesComplete(s: string, q: nat, a: nat, a0: nat, g: string)
    requires q <= a0 <= a <= |s| && AllSpaces(s, q, a)
    requires EqualsThenGroup(s, a0, g)
    ensures TryFirstSpaces(s, q, a).Some?
    decreases a - a0
  {
    if a == a0 {
      TryEqualsComplete(s, a, g);
    } else {
      TryFirstSpacesComplete(s, q, a - 1, a0, g);
    }
  }

  /** The matcher succeeds at `p` exactly when the pattern can match there
      with some group. */
  lemma MatchAtExact(s: string, p: nat)
    requires p <= |s|
    ensures MatchAt(s, p).Some? <==> exists g :: Matches(s, p, g)
  {
    MatchAtSound(s, p);
    if g :| Matches(s, p, g) {
      var q := p + |Flag|;
      var a0 :| q <= a0 <= |s| && AllSpaces(s, q, a0) && EqualsThenGroup(s, a0, g);
      SpacesWithin(s, q, a0);
      TryFirstSpacesComplete(s, q, SpaceEnd(s, q), a0, g);
    }
  }

  /** `FirstFound` is the first success from `p` on, and None exactly when
      every attempt fails. */
  lemma {:induction false} FirstFoundIsFirst(t: seq<Option<string>>, p: nat)
    requires p <= |t|
    ensures FirstFound(t, p).None? <==> forall k :: p <= k < |t| ==> t[k].None?
    ensures FirstFound(t, p).Some? ==>
              exists k :: p <= k < |t| && t[k] == FirstFound(t, p) &&
                          forall j :: p <= j < k ==> t[j].None?
    decreases |t| - p
  {
    if p < |t| {
      FirstFoundIsFirst(t, p + 1);
      if t[p].None? && FirstFound(t, p + 1).Some? {
        var k: nat :| p + 1 <= k < |t| && t[k] == FirstFound(t, p + 1) &&
                      forall j :: p + 1 <= j < k ==> t[j].None?;
        assert forall j :: p <= j < k ==> t[j].None?;
      }
    }
  }

  /** The search finds the leftmost position at which the pattern matches,
      and nothing when it matches nowhere. */
  lemma SearchIsLeftmost(s: string)
    ensures RootIn(s).None? <==> forall k :: 0 <= k <= |s| ==> MatchAt(s, k).None?
    ensures RootIn(s).Some? ==>
              exists k :: 0 <= k <= |s| && MatchAt(s, k) == RootIn(s) &&
                          forall j :: 0 <= j < k ==> MatchAt(s, j).None?
  {
    FirstFoundIsFirst(Attempts(s), 0);
  }

  /** Every group found is a genuine match of the pattern in the line, and
      a line has no group exactly when the pattern matches nowhere in it. */
  lemma RootInExact(line: string)
    ensures RootIn(line).Some? ==> exists p: nat :: p <= |line| && Matches(line, p, RootIn(line).value)
    ensures RootIn(line).None? <==> forall p: nat, g :: p <= |line| ==> !Matches(line, p, g)
  {
    SearchIsLeftmost(line);
    forall p: nat | p <= |line| {
      MatchAtExact(line, p);
    }
    if RootIn(line).Some? {
      var k: nat :| k <= |line| && MatchAt(line, k) == RootIn(line) &&
                    forall j :: 0 <= j < k ==> MatchAt(line, j).None?;
      MatchAtSound(line, k);
      assert Matches(line, k, RootIn(line).value);
    } else {
      forall p: nat, g | p <= |line|
        ensures !Matches(line, p, g)
      {
        assert MatchAt(line, p).None?;
      }
    }
  }

  /** A line without `--root` in it has no group. */
  lemma NoFlagNoRoot(line: string)
    requires forall p: nat :: !FlagAt(line, p)
    ensures RootIn(line).None?
  {
    SearchIsLeftmost(line);
  }

  /** `--root` at `p`, character by character. */
  lemma FlagAtChars(s: string, p: nat)
    ensures FlagAt(s, p) <==> p + |Flag| <= |s| && forall i :: 0 <= i < |Flag| ==> s[p + i] == Flag[i]
  {
    if p + |Flag| <= |s| {
      var w := s[p..p + |Flag|];
      assert forall i :: 0 <= i < |Flag| ==> w[i] == s[p + i];
    }
  }

  /** A line lacking one of the letters of `--root` has no group. */
  lemma NoFlagWithout(line: string, c: char)
    requires c in Flag && c !in line
    ensures RootIn(line).None?
  {
    forall p: nat
      ensures !FlagAt(line, p)
    {
      FlagAtChars(line, p);
    }
    NoFlagNoRoot(line);
  }

  /** A line whose only dash stands alone has no `--` and so no group. */
  lemma NoFlagSingleDash(a: string, b: string)
    requires '-' !in a && '-' !in b
    ensures RootIn(a + "-" + b).None?
  {
    var line := a + "-" + b;
    forall p: nat
      ensures !FlagAt(line, p)
    {
      FlagAtChars(line, p);
      if p + 1 < |line| {
        if p < |a| {
          assert line[p] == a[p];
        } else if p == |a| {
          assert line[p + 1] == b[0];
        } else {
          assert line[p] == b[p - |a| - 1];
        }
      }
    }
    NoFlagNoRoot(line);
  }

  /** `--root="<r>"` followed by anything, at the start of a line, has `r`
      as its group, for any non-empty `r` without a quote. */
  lemma QuotedRootLine(r: string, rest: string)
    requires r != [] && '"' !in r
    ensures RootIn("--root=\"" + r + "\"" + rest) == Some(r)
  {
    var s := "--root=\"" + r + "\"" + rest;
    assert s[..|Flag|] == Flag;
    assert FlagAt(s, 0);
    assert s[6] == '=' && s[7] == '"';
    assert SpaceEnd(s, 6) == 6;
    assert SpaceEnd(s, 7) == 7;
    assert s[8..8 + |r|] == r;
    assert s[8 + |r|] == '"';
    assert forall k :: 8 <= k < 8 + |r| ==> s[k] == r[k - 8];
    assert RunEnd(s, 8) == 8 + |r|;
    assert Group(s, 8) == Some(r);
    assert MatchAt(s, 0) == Some(r);
  }

  // ---------------------------------------------------------------------
  // The scan of the file

  /** The group of each line, or None. */
  function LineRoots(lines: seq<string>): (t: seq<Option<string>>)
    ensures |t| == |lines|
    ensures forall i :: 0 <= i < |lines| ==> t[i] == RootIn(lines[i])
  {
    seq(|lines|, i requires 0 <= i < |lines| => RootIn(lines[i]))
  }

  /** The last of `t` that is present (each matching line replaces the
      previous value). */
  function LastFound(t: seq<Option<string>>): Option<string> {
    if t == [] then None
    else if t[|t| - 1].Some? then t[|t| - 1]
    else LastFound(t[..|t| - 1])
  }

  /** The group of the last line that has one. */
  function LastRoot(lines: seq<string>): Option<string> {
    LastFound(LineRoots(lines))
  }

  lemma {:induction false} LastFoundIsLast(t: seq<Option<string>>)
    ensures LastFound(t).None? <==> forall i :: 0 <= i < |t| ==> t[i].None?
    ensures LastFound(t).Some? ==>
              exists i :: 0 <= i < |t| && t[i] == LastFound(t) && forall j :: i < j < |t| ==> t[j].None?
  {
    if t != [] && t[|t| - 1].None? {
      var init := t[..|t| - 1];
      LastFoundIsLast(init);
      if LastFound(init).Some? {
        var i :| 0 <= i < |init| && init[i] == LastFound(init) && forall j :: i < j < |init| ==> init[j].None?;
        assert t[i] == init[i];
        forall j | i < j < |t|
          ensures t[j].None?
        {
          if j < |init| {
            assert t[j] == init[j];
          }
        }
      } else {
        forall i | 0 <= i < |t|
          ensures t[i].None?
        {
          if i < |init| {
            assert t[i] == init[i];
          }
        }
      }
    }
  }

  /** The last match wins: the result is the group of a line after which no
      line matches, and None exactly when no line matches. */
  lemma LastRootIsLast(lines: seq<string>)
    ensures LastRoot(lines).None? <==> forall i :: 0 <= i < |lines| ==> RootIn(lines[i]).None?
    ensures LastRoot(lines).Some? ==>
              exists i :: 0 <= i < |lines| && RootIn(lines[i]) == LastRoot(lines) &&
                          forall j :: i < j < |lines| ==> RootIn(lines[j]).None?
  {
    LastFoundIsLast(LineRoots(lines));
  }

  lemma {:induction false} LastFoundIgnoresTail(head: seq<Option<string>>, tail: seq<Option<string>>)
    requires forall i :: 0 <= i < |tail| ==> tail[i].None?
    ensures LastFound(head + tail) == LastFound(head)
    decreases |tail|
  {
    if tail != [] {
      var t := head + tail;
      assert t[..|t| - 1] == head + tail[..|tail| - 1];
      assert t[|t| - 1] == tail[|tail| - 1];
      LastFoundIgnoresTail(head, tail[..|tail| - 1]);
    } else {
      assert head + tail == head;
    }
  }

  /** A matching last line decides the result. */
  lemma LastRootAfterMatch(init: seq<string>, line: string)
    requires RootIn(line).Some?
    ensures LastRoot(init + [line]) == RootIn(line)
  {
    assert LineRoots(init + [line])[|init|] == RootIn(line);
  }

  /** Lines without a group after the last matching one change nothing. */
  lemma LastRootIgnoresTail(head: seq<string>, tail: seq<string>)
    requires forall i :: 0 <= i < |tail| ==> RootIn(tail[i]).None?
    ensures LastRoot(head + tail) == LastRoot(head)
  {
    assert LineRoots(head + tail) == LineRoots(head) + LineRoots(tail);
    LastFoundIgnoresTail(LineRoots(head), LineRoots(tail));
  }

  /** `str.strip()`. */
  function Strip(s: string): (r: string)
    ensures r == [] <==> forall k :: 0 <= k < |s| ==> IsSpace(s[k])
    ensures r != [] ==> !IsSpace(r[0]) && !IsSpace(r[|r| - 1])
    ensures exists i :: 0 <= i <= |s| - |r| && s[i..i + |r|] == r &&
                        AllSpaces(s, 0, i) && AllSpaces(s, i + |r|, |s|)
  {
    var i := StripStart(s, 0);
    var j := StripEnd(s, i, |s|);
    assert AllSpaces(s, 0, i);
    s[i..j]
  }

  /** The first position from `i` on that is not a space. */
  function StripStart(s: string, i: nat): (e: nat)
    requires i <= |s|
    ensures i <= e <= |s| && (forall k :: i <= k < e ==> IsSpace(s[k]))
    ensures e == |s| || !IsSpace(s[e])
    decreases |s| - i
  {
    if i < |s| && IsSpace(s[i]) then StripStart(s, i + 1) else i
  }

  /** The end of `s[i..j]` once the spaces at its end are dropped. */
  function StripEnd(s: string, i: nat, j: nat): (e: nat)
    requires i <= j <= |s|
    ensures i <= e <= j && (forall k :: e <= k < j ==> IsSpace(s[k]))
    ensures e == i || !IsSpace(s[e - 1])
    decreases j - i
  {
    if i < j && IsSpace(s[j - 1]) then StripEnd(s, i, j - 1) else j
  }

  // ---------------------------------------------------------------------
  // get_root

  /** A path, or the AttributeError that `None.strip()` raises when the
      initialization file exists but no line of it matches. */
  datatype RootResult = Path(path: string) | Crash

  /** An argument or variable that is given and not empty. */
  predicate Given(o: Option<string>) {
    o.Some? && o.value != ""
  }

  /** `get_root(root)`: `env` is `INVOKEAI_ROOT`, `initFile` the lines of the
      expanded initialization file, None when it does not exist. */
  function ResolvedRoot(arg: Option<string>, env: Option<string>, initFile: Option<seq<string>>): RootResult {
    if Given(arg) then Path(arg.value)
    else if Given(env) then Path(env.value)
    else if initFile.None? then Path(".")
    else
      var m := LastRoot(initFile.value);
      if m.None? then Crash
      else
        var t := Strip(m.value);
        Path(if t == "" then "." else t)
  }

  /** The scan as the source runs it, one line at a time. */
  method GetRoot(arg: Option<string>, env: Option<string>, initFile: Option<seq<string>>) returns (result: RootResult)
    ensures result == ResolvedRoot(arg, env, initFile)
  {
    if Given(arg) {
      return Path(arg.value);
    } else if Given(env) {
      return Path(env.value);
    } else if initFile.None? {
      return Path(".");
    }
    var lines := initFile.value;
    var root: Option<string> := None;
    var i := 0;
    while i < |lines|
      invariant 0 <= i <= |lines|
      invariant root == LastFound(LineRoots(lines)[..i])
    {
      assert LineRoots(lines)[..i + 1][..i] == LineRoots(lines)[..i];
      var m := RootIn(lines[i]);
      if m.Some? {
        root := m;
      }
      i := i + 1;
    }
    assert LineRoots(lines)[..i] == LineRoots(lines);
    if root.None? {
      return Crash;
    }
    var t := Strip(root.value);
    result := Path(if t == "" then "." else t);
  }

  /** The argument wins over the variable, the variable over the file, and
      "." stands in when there is no file; a path found in the file loses
      its surrounding white space, and the result is never empty. The only
      crash is an existing file none of whose lines matches. */
  lemma RootPrecedence(arg: Option<string>, env: Option<string>, initFile: Option<seq<string>>)
    ensures Given(arg) ==> ResolvedRoot(arg, env, initFile) == Path(arg.value)
    ensures !Given(arg) && Given(env) ==> ResolvedRoot(arg, env, initFile) == Path(env.value)
    ensures !Given(arg) && !Given(env) && initFile.None? ==> ResolvedRoot(arg, env, initFile) == Path(".")
    ensures ResolvedRoot(arg, env, initFile) == Crash <==>
              !Given(arg) && !Given(env) && initFile.Some? &&
              forall i :: 0 <= i < |initFile.value| ==> RootIn(initFile.value[i]).None?
    ensures ResolvedRoot(arg, env, initFile).Path? ==> ResolvedRoot(arg, env, initFile).path != ""
  {
    if initFile.Some? {
      LastRootIsLast(initFile.value);
    }
  }

  // ---------------------------------------------------------------------
  // The initialization file that initialize_rootdir writes

  /** The lines of the file `initialize_rootdir` creates, for `root` as
      `Globals.root`, as `readlines()` returns them when `root` holds no line
      break (a root with one would be split over two lines). */
  function InitFileLines(root: string): seq<string> {
    InitFileIntro + [RootLine(root)] + InitFileExamples
  }

  const InitFileIntro: seq<string> :=
    [ "# InvokeAI initialization file\n",
      "# The --root option below points to the folder in which InvokeAI stores its models, configs and outputs.\n",
      "# Don't change it unless you know what you are doing!\n" ]

  function RootLine(root: string): string {
    "--root=\"" + root + "\"\n"
  }

  const InitFileExamples: seq<string> :=
    [ "\n",
      "# You may place other  frequently" + "-" + "used startup commands here," + " one or more per line.\n",
      "# Examples:\n",
      "# --web --host=0.0.0.0\n",
      "# --steps=20\n",
      "# -Ak_euler_a -C10.0\n",
      "#\n" ]

  /** None of the lines after the root line has a group. */
  lemma ExamplesHaveNoRoot()
    ensures forall i :: 0 <= i < |InitFileExamples| ==> RootIn(InitFileExamples[i]).None?
  {
    var e := InitFileExamples;
    forall i | 0 <= i < |e|
      ensures RootIn(e[i]).None?
    {
      if i == 1 {
        DashLineHasNoRoot();
      } else if i == 5 {
        NoFlagWithout(e[5], 'o');
      } else {
        assert i in {0, 2, 3, 4, 6};
        NoFlagWithout(e[i], 'r');
      }
    }
  }

  lemma DashLineHasNoRoot()
    ensures RootIn(InitFileExamples[1]).None?
  {
    var a, b := "# You may place other  frequently", "used startup commands here," + " one or more per line.\n";
    assert InitFileExamples[1] == a + "-" + b;
    NoFlagSingleDash(a, b);
  }

  /** The file written by `initialize_rootdir` reads back as the root it was
      written for (stripped), whenever that root has no quote and no line
      break in it. The second line also mentions `--root`, but the root line
      comes after it. */
  lemma InitFileRoundTrip(root: string)
    requires root != [] && '"' !in root
    requires '\n' !in root && '\r' !in root
    ensures ResolvedRoot(None, None, Some(InitFileLines(root))) ==
            Path(if Strip(root) == "" then "." else Strip(root))
  {
    ExamplesHaveNoRoot();
    LastRootIgnoresTail(InitFileIntro + [RootLine(root)], InitFileExamples);
    assert RootLine(root) == "--root=\"" + root + "\"" + "\n";
    QuotedRootLine(root, "\n");
    LastRootAfterMatch(InitFileIntro, RootLine(root));
  }
}
