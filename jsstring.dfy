/**
 * The JavaScript string and array built-ins the chat backend relies on:
 * `trim`, `toLowerCase`, `split` (on a fixed string and on a regular
 * expression of the form `[...]+`), `join` and `slice`.
 *
 * A JavaScript string is a sequence of UTF-16 code units; here it is a
 * sequence of Unicode scalar values. The two agree on every character of the
 * Basic Multilingual Plane.
 */
module JsString {
  import opened Wrappers

  // ---------------------------------------------------------------------------
  // Substrings
  // ---------------------------------------------------------------------------

  /** `s` occurs in `t` starting at index `k`. */
  predicate ContainsAt(t: string, s: string, k: nat) {
    k + |s| <= |t| && t[k..k + |s|] == s
  }

  /** `t.includes(s)`. */
  predicate Contains(t: string, s: string) {
    exists k: nat | k <= |t| :: ContainsAt(t, s, k)
  }

  lemma ContainsPrefix(t: string, s: string)
    requires s <= t
    ensures Contains(t, s)
  {
    assert ContainsAt(t, s, 0);
  }

  /** An occurrence in `t` is still an occurrence after text is put in front. */
  lemma ContainsAfter(a: string, t: string, s: string, k: nat)
    requires ContainsAt(t, s, k)
    ensures ContainsAt(a + t, s, |a| + k)
  {
    assert (a + t)[|a| + k..|a| + k + |s|] == t[k..k + |s|];
  }

  /** A non-empty sequence is its head followed by its tail, also in front
      of another sequence. */
  lemma HeadTail<T>(xs: seq<T>, ys: seq<T>)
    requires xs != []
    ensures xs == [xs[0]] + xs[1..]
    ensures xs + ys == [xs[0]] + (xs[1..] + ys)
  {
  }

  lemma AppendAssoc<T>(a: seq<T>, b: seq<T>, c: seq<T>)
    ensures a + (b + c) == (a + b) + c
  {
  }

  // ---------------------------------------------------------------------------
  // trim
  // ---------------------------------------------------------------------------

  /** The code points `String.prototype.trim` removes: the WhiteSpace and
      LineTerminator productions of ECMAScript (section 12.2 and 12.3 of
      ECMA-262). */
  predicate IsTrimSpace(c: char) {
    || c == '\t' || c == '\n' || c == '\U{B}' || c == '\U{C}' || c == '\r' || c == ' '
    || c == '\U{A0}' || c == '\U{1680}' || ('\U{2000}' <= c <= '\U{200A}')
    || c == '\U{2028}' || c == '\U{2029}' || c == '\U{202F}' || c == '\U{205F}'
    || c == '\U{3000}' || c == '\U{FEFF}'
  }

  /** Every character of `s` is one that `trim` removes. */
  predicate IsBlank(s: string) {
    forall i :: 0 <= i < |s| ==> IsTrimSpace(s[i])
  }

  /** Removes leading trim-space: the result is the suffix of `s` that starts
      at its first other character. */
  function TrimStart(s: string): (r: string)
    ensures |r| <= |s| && r == s[|s| - |r|..]
    ensures IsBlank(s[..|s| - |r|])
    ensures r == [] || !IsTrimSpace(r[0])
  {
    if s != [] && IsTrimSpace(s[0]) then
      var r := TrimStart(s[1..]);
      assert s[..|s| - |r|] == [s[0]] + s[1..][..|s[1..]| - |r|];
      r
    else
      s
  }

  /** Removes trailing trim-space: the result is the prefix of `s` that ends
      at its last other character. */
  function TrimEnd(s: string): (r: string)
    ensures r <= s
    ensures IsBlank(s[|r|..])
    ensures r == [] || !IsTrimSpace(r[|r| - 1])
  {
    if s != [] && IsTrimSpace(s[|s| - 1]) then
      var r := TrimEnd(s[..|s| - 1]);
      assert s[|r|..] == s[..|s| - 1][|r|..] + [s[|s| - 1]];
      r
    else
      s
  }

  /** `s.trim()`: the part of `s` between its leading and its trailing
      trim-space, which neither starts nor ends with trim-space. */
  function Trim(s: string): (r: string)
    ensures exists k: nat | k + |r| <= |s| ::
      ContainsAt(s, r, k) && IsBlank(s[..k]) && IsBlank(s[k + |r|..])
    ensures r == [] || (!IsTrimSpace(r[0]) && !IsTrimSpace(r[|r| - 1]))
  {
    var t := TrimStart(s);
    var r := TrimEnd(t);
    TrimParts(s, t, r);
    r
  }

  /** Cutting a blank prefix of `s` and then a blank suffix of what remains
      leaves a middle part of `s` between two blank parts. */
  lemma TrimParts(s: string, t: string, r: string)
    requires |t| <= |s| && t == s[|s| - |t|..] && IsBlank(s[..|s| - |t|])
    requires t == [] || !IsTrimSpace(t[0])
    requires r <= t && IsBlank(t[|r|..])
    requires r == [] || !IsTrimSpace(r[|r| - 1])
    ensures exists k: nat | k + |r| <= |s| ::
      ContainsAt(s, r, k) && IsBlank(s[..k]) && IsBlank(s[k + |r|..])
    ensures r == [] || (!IsTrimSpace(r[0]) && !IsTrimSpace(r[|r| - 1]))
  {
    var k := |s| - |t|;
    assert s[k..k + |r|] == t[..|r|] == r;
    assert s[k + |r|..] == t[|r|..];
    assert ContainsAt(s, r, k);
    if r != [] {
      assert r[0] == t[0];
    }
  }

  /** `s.trim().length > 0` holds exactly when `s` has a character that is
      not trim-space. */
  lemma TrimEmptyIffBlank(s: string)
    ensures |Trim(s)| == 0 <==> IsBlank(s)
  {
    var t := TrimStart(s);
    if |Trim(s)| == 0 {
      assert t[0..] == t;
      assert IsBlank(t);
      assert t == [];
      assert s == s[..|s| - |t|] + t;
    } else {
      var r := Trim(s);
      assert r[0] == t[0];
      assert t[0] == s[|s| - |t|];
    }
  }

  /** The strings of `xs` that are non-blank after trimming, in order:
      `xs.filter(p => p.trim().length > 0)`, with the test written as
      `!IsBlank(p)` (the two agree by `TrimEmptyIffBlank`). */
  function NonBlank(xs: seq<string>): (r: seq<string>)
    ensures |r| <= |xs|
    ensures forall p :: p in r <==> p in xs && !IsBlank(p)
  {
    if xs == [] then []
    else (if !IsBlank(xs[0]) then [xs[0]] else []) + NonBlank(xs[1..])
  }

  /** The filter works entry by entry: on one string it keeps it exactly when
      it is not blank, ... */
  lemma NonBlankSingle(x: string)
    ensures NonBlank([x]) == if IsBlank(x) then [] else [x]
  {
    assert [x][1..] == [];
  }

  /** ... and on a concatenation it filters each part and keeps their order,
      so the kept strings stay in input order, repetitions included. */
  lemma {:induction false} NonBlankAppend(xs: seq<string>, ys: seq<string>)
    ensures NonBlank(xs + ys) == NonBlank(xs) + NonBlank(ys)
  {
    if xs == [] {
      assert xs + ys == ys;
    } else {
      var x, rest := xs[0], xs[1..];
      NonBlankAppend(rest, ys);
      HeadTail(xs, ys);
      NonBlankCons(x, rest + ys);
      NonBlankCons(x, rest);
      AppendAssoc(if !IsBlank(x) then [x] else [], NonBlank(rest), NonBlank(ys));
    }
  }

  lemma NonBlankCons(x: string, xs: seq<string>)
    ensures NonBlank([x] + xs) == (if !IsBlank(x) then [x] else []) + NonBlank(xs)
  {
    assert ([x] + xs)[1..] == xs;
  }

  // ---------------------------------------------------------------------------
  // toLowerCase and \W
  // ---------------------------------------------------------------------------

  predicate IsAsciiUpper(c: char) {
    'A' <= c <= 'Z'
  }

  /** `toLowerCase` on one character; only ASCII letters are mapped. */
  function LowerChar(c: char): char {
    if IsAsciiUpper(c) then (c as int + 32) as char else c
  }

  /** `s.toLowerCase()`, with the ASCII letters mapped. */
  function ToLower(s: string): (r: string)
    ensures |r| == |s|
    ensures forall i :: 0 <= i < |s| ==> r[i] == LowerChar(s[i])
  {
    if s == [] then [] else [LowerChar(s[0])] + ToLower(s[1..])
  }

  /** Lower-casing twice is lower-casing once. */
  lemma ToLowerIdempotent(s: string)
    ensures ToLower(ToLower(s)) == ToLower(s)
  {
    var t := ToLower(s);
    forall i | 0 <= i < |t|
      ensures LowerChar(t[i]) == t[i]
    {
      assert t[i] == LowerChar(s[i]);
    }
  }

  /** A character `\w` matches in a regular expression without the `u` flag. */
  predicate IsWordChar(c: char) {
    ('a' <= c <= 'z') || ('A' <= c <= 'Z') || ('0' <= c <= '9') || c == '_'
  }

  /** A character `\W` matches. */
  predicate IsNonWordChar(c: char) {
    !IsWordChar(c)
  }

  // ---------------------------------------------------------------------------
  // split on runs of separator characters: s.split(/[...]+/)
  // ---------------------------------------------------------------------------

  /** `s` has no character from the separator class. */
  predicate FreeOf(s: string, isSep: char -> bool) {
    forall i :: 0 <= i < |s| ==> !isSep(s[i])
  }

  /** The characters of `s` that are not separators, in order. */
  function Strip(s: string, isSep: char -> bool): (r: string)
    ensures FreeOf(r, isSep)
  {
    if s == [] then [] else (if isSep(s[0]) then [] else [s[0]]) + Strip(s[1..], isSep)
  }

  /** The concatenation of a list of strings. */
  function Concat(xs: seq<string>): string {
    if xs == [] then [] else xs[0] + Concat(xs[1..])
  }

  /** `s.split(/[C]+/)` where `C` is the class `isSep` accepts: the pieces
      between maximal runs of separator characters. A leading or trailing run
      gives an empty first or last piece, and the empty string gives `[""]`. */
  function SplitRuns(s: string, isSep: char -> bool): (r: seq<string>)
    ensures |r| >= 1
    ensures forall k :: 0 <= k < |r| ==> FreeOf(r[k], isSep)
    ensures r[0] <= s
  {
    if s == [] then [""]
    else if isSep(s[0]) then
      if |s| > 1 && isSep(s[1]) then SplitRuns(s[1..], isSep)
      else [""] + SplitRuns(s[1..], isSep)
    else
      var r := SplitRuns(s[1..], isSep);
      [[s[0]] + r[0]] + r[1..]
  }

  /** A non-empty run of separator characters. */
  predicate IsSeparatorRun(run: string, isSep: char -> bool) {
    |run| > 0 && forall i :: 0 <= i < |run| ==> isSep(run[i])
  }

  /** The maximal runs of separator characters of `s`, in order: what
      `s.split(/[C]+/)` cuts out between consecutive pieces. */
  function SeparatorRuns(s: string, isSep: char -> bool): (runs: seq<string>)
    ensures |runs| == |SplitRuns(s, isSep)| - 1
    ensures forall k :: 0 <= k < |runs| ==> IsSeparatorRun(runs[k], isSep)
    ensures |s| > 0 && isSep(s[0]) ==> |runs| > 0
  {
    if s == [] then []
    else if isSep(s[0]) then
      var runs := SeparatorRuns(s[1..], isSep);
      if |s| > 1 && isSep(s[1]) then [[s[0]] + runs[0]] + runs[1..]
      else [[s[0]]] + runs
    else SeparatorRuns(s[1..], isSep)
  }

  /** The pieces with each run put between two consecutive pieces. */
  function Interleave(pieces: seq<string>, runs: seq<string>): string
    requires |pieces| == |runs| + 1
    decreases |runs|
  {
    if runs == [] then pieces[0] else pieces[0] + runs[0] + Interleave(pieces[1..], runs[1..])
  }

  lemma InterleaveExtendFirst(c: char, pieces: seq<string>, runs: seq<string>)
    requires |pieces| == |runs| + 1
    ensures Interleave([[c] + pieces[0]] + pieces[1..], runs) == [c] + Interleave(pieces, runs)
  {
    var pieces' := [[c] + pieces[0]] + pieces[1..];
    assert pieces'[0] == [c] + pieces[0] && pieces'[1..] == pieces[1..];
    if runs != [] {
      var rest := runs[0] + Interleave(pieces[1..], runs[1..]);
      assert Interleave(pieces', runs) == pieces'[0] + rest;
      assert Interleave(pieces, runs) == pieces[0] + rest;
      assert ([c] + pieces[0]) + rest == [c] + (pieces[0] + rest);
    }
  }

  lemma InterleaveExtendRun(c: char, pieces: seq<string>, runs: seq<string>)
    requires |pieces| == |runs| + 1 && |runs| > 0 && pieces[0] == []
    ensures Interleave(pieces, [[c] + runs[0]] + runs[1..]) == [c] + Interleave(pieces, runs)
  {
    var runs' := [[c] + runs[0]] + runs[1..];
    assert runs'[0] == [c] + runs[0] && runs'[1..] == runs[1..];
  }

  lemma InterleaveNewRun(c: char, pieces: seq<string>, runs: seq<string>)
    requires |pieces| == |runs| + 1
    ensures Interleave([""] + pieces, [[c]] + runs) == [c] + Interleave(pieces, runs)
  {
    var pieces', runs' := [""] + pieces, [[c]] + runs;
    assert pieces'[0] == [] && runs'[0] == [c];
    assert pieces'[1..] == pieces && runs'[1..] == runs;
    assert Interleave(pieces', runs') == pieces'[0] + runs'[0] + Interleave(pieces, runs);
  }

  /** The first piece of a text that starts with a separator is empty. */
  lemma SplitRunsLeadingSeparator(s: string, isSep: char -> bool)
    requires |s| > 0 && isSep(s[0])
    ensures SplitRuns(s, isSep)[0] == []
  {
  }

  /** The pieces of a split with the separator runs put back between them
      give back `s`; together with `SplitRunsInnerPieces` (no empty inner
      piece) this fixes where every cut falls. */
  lemma {:induction false} SplitRunsRoundTrip(s: string, isSep: char -> bool)
    ensures Interleave(SplitRuns(s, isSep), SeparatorRuns(s, isSep)) == s
  {
    if s != [] {
      var pieces, runs := SplitRuns(s[1..], isSep), SeparatorRuns(s[1..], isSep);
      SplitRunsRoundTrip(s[1..], isSep);
      assert s == [s[0]] + s[1..];
      if isSep(s[0]) {
        if |s| > 1 && isSep(s[1]) {
          SplitRunsLeadingSeparator(s[1..], isSep);
          assert SplitRuns(s, isSep) == pieces;
          assert SeparatorRuns(s, isSep) == [[s[0]] + runs[0]] + runs[1..];
          InterleaveExtendRun(s[0], pieces, runs);
        } else {
          assert SplitRuns(s, isSep) == [""] + pieces;
          assert SeparatorRuns(s, isSep) == [[s[0]]] + runs;
          InterleaveNewRun(s[0], pieces, runs);
        }
      } else {
        assert SplitRuns(s, isSep) == [[s[0]] + pieces[0]] + pieces[1..];
        assert SeparatorRuns(s, isSep) == runs;
        InterleaveExtendFirst(s[0], pieces, runs);
      }
    }
  }

  /** Only the first and the last piece can be empty: a text that starts
      with a non-separator has a non-empty first piece, and maximal runs
      leave no empty piece between them. */
  lemma {:induction false} SplitRunsInnerPieces(s: string, isSep: char -> bool)
    ensures |s| > 0 && !isSep(s[0]) ==> SplitRuns(s, isSep)[0] != []
    ensures forall k :: 0 < k < |SplitRuns(s, isSep)| - 1 ==> SplitRuns(s, isSep)[k] != []
  {
    if s != [] {
      var r, r' := SplitRuns(s, isSep), SplitRuns(s[1..], isSep);
      SplitRunsInnerPieces(s[1..], isSep);
      if isSep(s[0]) {
        if !(|s| > 1 && isSep(s[1])) {
          assert r == [""] + r';
          assert forall k :: 0 < k < |r| ==> r[k] == r'[k - 1];
        }
      } else {
        assert r == [[s[0]] + r'[0]] + r'[1..];
        assert forall k :: 0 < k < |r| ==> r[k] == r'[k];
      }
    }
  }

  lemma ConcatCons(x: string, xs: seq<string>)
    ensures Concat([x] + xs) == x + Concat(xs)
  {
    assert ([x] + xs)[1..] == xs;
  }

  /** The pieces of a split, put back together, are the input with the
      separators removed: splitting loses only separator characters. */
  lemma {:induction false} SplitRunsKeepsText(s: string, isSep: char -> bool)
    ensures Concat(SplitRuns(s, isSep)) == Strip(s, isSep)
  {
    if s == [] {
    } else if isSep(s[0]) {
      var r := SplitRuns(s[1..], isSep);
      SplitRunsKeepsText(s[1..], isSep);
      assert Strip(s, isSep) == Strip(s[1..], isSep);
      if !(|s| > 1 && isSep(s[1])) {
        assert SplitRuns(s, isSep) == [""] + r;
        ConcatCons("", r);
      } else {
        assert SplitRuns(s, isSep) == r;
      }
    } else {
      var r := SplitRuns(s[1..], isSep);
      SplitRunsKeepsText(s[1..], isSep);
      assert Strip(s, isSep) == [s[0]] + Strip(s[1..], isSep);
      assert SplitRuns(s, isSep) == [[s[0]] + r[0]] + r[1..];
      assert r == [r[0]] + r[1..];
      ConcatExtendFirst(s[0], r[0], r[1..]);
    }
  }

  /** Putting a character in front of the first string puts it in front of
      the concatenation. */
  lemma ConcatExtendFirst(c: char, head: string, tail: seq<string>)
    ensures Concat([[c] + head] + tail) == [c] + Concat([head] + tail)
  {
    var rest := Concat(tail);
    ConcatCons([c] + head, tail);
    ConcatCons(head, tail);
    assert ([c] + head) + rest == [c] + (head + rest);
  }

  /** The strings of `xs` that are not empty, in order: `xs.filter(Boolean)`. */
  function NonEmpty(xs: seq<string>): (r: seq<string>)
    ensures |r| <= |xs|
    ensures forall w :: w in r <==> w in xs && w != []
  {
    if xs == [] then []
    else (if xs[0] != [] then [xs[0]] else []) + NonEmpty(xs[1..])
  }

  /** `filter(Boolean)` works entry by entry: on one string it keeps it
      exactly when it is not empty, ... */
  lemma NonEmptySingle(x: string)
    ensures NonEmpty([x]) == if x == [] then [] else [x]
  {
    assert [x][1..] == [];
  }

  /** ... and on a concatenation it filters each part and keeps their order,
      so the kept strings stay in input order, repetitions included. */
  lemma {:induction false} NonEmptyAppend(xs: seq<string>, ys: seq<string>)
    ensures NonEmpty(xs + ys) == NonEmpty(xs) + NonEmpty(ys)
  {
    if xs == [] {
      assert xs + ys == ys;
    } else {
      var x, rest := xs[0], xs[1..];
      NonEmptyAppend(rest, ys);
      HeadTail(xs, ys);
      NonEmptyCons(x, rest + ys);
      NonEmptyCons(x, rest);
      AppendAssoc(if x != [] then [x] else [], NonEmpty(rest), NonEmpty(ys));
    }
  }

  lemma NonEmptyCons(x: string, xs: seq<string>)
    ensures NonEmpty([x] + xs) == (if x != [] then [x] else []) + NonEmpty(xs)
  {
    assert ([x] + xs)[1..] == xs;
  }

  /** Dropping empty strings does not change the concatenation. */
  lemma {:induction false} ConcatNonEmpty(xs: seq<string>)
    ensures Concat(NonEmpty(xs)) == Concat(xs)
  {
    if xs != [] {
      ConcatNonEmpty(xs[1..]);
      var head := if xs[0] != [] then [xs[0]] else [];
      assert NonEmpty(xs) == head + NonEmpty(xs[1..]);
      if xs[0] != [] {
        ConcatCons(xs[0], NonEmpty(xs[1..]));
      } else {
        assert NonEmpty(xs) == NonEmpty(xs[1..]);
      }
    }
  }

  // ---------------------------------------------------------------------------
  // split on a fixed string, and join
  // ---------------------------------------------------------------------------

  /** `s.split(sep)` for a non-empty `sep`: the pieces between the
      occurrences of `sep` found scanning left to right, without overlap. */
  function SplitOn(s: string, sep: string): (r: seq<string>)
    requires |sep| > 0
    ensures |r| >= 1
    ensures r[0] <= s
    decreases |s|
  {
    if |s| < |sep| then [s]
    else if s[..|sep|] == sep then [""] + SplitOn(s[|sep|..], sep)
    else
      var r := SplitOn(s[1..], sep);
      [[s[0]] + r[0]] + r[1..]
  }

  /** `xs.join(sep)`: the strings of `xs` with `sep` between consecutive
      ones; the result starts with the first string. */
  function Join(xs: seq<string>, sep: string): (r: string)
    ensures xs == [] ==> r == ""
    ensures xs != [] ==> xs[0] <= r
  {
    if xs == [] then ""
    else if |xs| == 1 then xs[0]
    else xs[0] + sep + Join(xs[1..], sep)
  }

  lemma JoinCons(x: string, xs: seq<string>, sep: string)
    requires xs != []
    ensures Join([x] + xs, sep) == x + sep + Join(xs, sep)
  {
    assert ([x] + xs)[1..] == xs;
  }

  /** Joining the pieces of a split with the same separator gives back the
      original string. */
  lemma {:induction false} JoinSplitOn(s: string, sep: string)
    requires |sep| > 0
    ensures Join(SplitOn(s, sep), sep) == s
    decreases |s|
  {
    if |s| < |sep| {
    } else if s[..|sep|] == sep {
      var rest := s[|sep|..];
      JoinSplitOn(rest, sep);
      JoinCons("", SplitOn(rest, sep), sep);
      assert "" + sep + Join(SplitOn(rest, sep), sep) == sep + rest;
      assert s == sep + rest;
    } else {
      var r := SplitOn(s[1..], sep);
      JoinSplitOn(s[1..], sep);
      assert SplitOn(s, sep) == [[s[0]] + r[0]] + r[1..];
      assert r == [r[0]] + r[1..];
      JoinExtendFirst(s[0], r[0], r[1..], sep);
      assert Join(SplitOn(s, sep), sep) == [s[0]] + Join(r, sep);
      assert s == [s[0]] + s[1..];
    }
  }

  /** Putting a character in front of the first string puts it in front of
      the join. */
  lemma JoinExtendFirst(c: char, head: string, tail: seq<string>, sep: string)
    ensures Join([[c] + head] + tail, sep) == [c] + Join([head] + tail, sep)
  {
    if tail != [] {
      var rest := Join(tail, sep);
      JoinCons([c] + head, tail, sep);
      JoinCons(head, tail, sep);
      assert ([c] + head) + sep + rest == [c] + (head + sep + rest);
    }
  }

  /** The first piece `r[0]` of a split of `s` ends at the leftmost
      occurrence of `sep`: none starts inside it, and when there is more than
      one piece an occurrence starts right after it and the remaining pieces
      are the split of what follows; a single piece is the whole text. */
  predicate CutsAtLeftmost(s: string, sep: string, r: seq<string>)
    requires |sep| > 0 && |r| > 0
  {
    && (forall k: nat :: k < |r[0]| ==> !ContainsAt(s, sep, k))
    && (|r| == 1 ==> r[0] == s)
    && (|r| > 1 ==> |r[0]| + |sep| <= |s| && ContainsAt(s, sep, |r[0]|) &&
                    r[1..] == SplitOn(s[|r[0]| + |sep|..], sep))
  }

  /** An occurrence at `k + 1` in `s` is one at `k` in `s[1..]`. */
  lemma ContainsAtShift(s: string, sep: string, k: nat)
    requires |s| > 0
    ensures ContainsAt(s, sep, k + 1) <==> ContainsAt(s[1..], sep, k)
  {
    if k + 1 + |sep| <= |s| {
      assert s[k + 1..k + 1 + |sep|] == s[1..][k..k + |sep|];
    }
  }

  /** No occurrence starts in the first `n + 1` positions of `s` when none
      starts at 0 and none in the first `n` positions of `s[1..]`. */
  lemma NoOccurrenceExtend(s: string, sep: string, n: nat)
    requires |s| > 0 && !ContainsAt(s, sep, 0)
    requires forall k: nat :: k < n ==> !ContainsAt(s[1..], sep, k)
    ensures forall k: nat :: k < n + 1 ==> !ContainsAt(s, sep, k)
  {
    forall k: nat | 0 < k < n + 1 ensures !ContainsAt(s, sep, k) {
      ContainsAtShift(s, sep, k - 1);
    }
  }

  /** Putting a character that starts no occurrence in front of the text
      and of the first piece keeps the cut at the leftmost occurrence. */
  lemma CutsAtLeftmostExtend(s: string, sep: string, t: seq<string>)
    requires |sep| > 0 && |s| > 0 && |t| > 0 && !ContainsAt(s, sep, 0)
    requires CutsAtLeftmost(s[1..], sep, t)
    ensures CutsAtLeftmost(s, sep, [[s[0]] + t[0]] + t[1..])
  {
    var r := [[s[0]] + t[0]] + t[1..];
    assert r[0] == [s[0]] + t[0] && r[1..] == t[1..];
    NoOccurrenceExtend(s, sep, |t[0]|);
    if |t| == 1 {
      assert s == [s[0]] + s[1..];
    } else {
      var m := |t[0]|;
      ContainsAtShift(s, sep, m);
      assert s[m + 1 + |sep|..] == s[1..][m + |sep|..];
    }
  }

  /** Extending the first piece by a character that starts no occurrence
      keeps the cut at the leftmost occurrence. */
  lemma SplitOnLeftmostStep(s: string, sep: string)
    requires |sep| > 0 && |s| >= |sep| && s[..|sep|] != sep
    requires CutsAtLeftmost(s[1..], sep, SplitOn(s[1..], sep))
    ensures CutsAtLeftmost(s, sep, SplitOn(s, sep))
  {
    var t := SplitOn(s[1..], sep);
    assert SplitOn(s, sep) == [[s[0]] + t[0]] + t[1..];
    assert s[0..|sep|] == s[..|sep|];
    CutsAtLeftmostExtend(s, sep, t);
  }

  /** Each cut of a split is at the leftmost occurrence of the separator, so
      overlapping occurrences are resolved from the left. */
  lemma {:induction false} SplitOnLeftmost(s: string, sep: string)
    requires |sep| > 0
    ensures CutsAtLeftmost(s, sep, SplitOn(s, sep))
    decreases |s|
  {
    if |s| < |sep| {
    } else if s[..|sep|] == sep {
      assert ContainsAt(s, sep, 0);
    } else {
      SplitOnLeftmost(s[1..], sep);
      SplitOnLeftmostStep(s, sep);
    }
  }

  /** No piece of a split contains the separator. */
  lemma {:induction false} SplitOnPiecesFreeOfSep(s: string, sep: string)
    requires |sep| > 0
    ensures forall k :: 0 <= k < |SplitOn(s, sep)| ==> !Contains(SplitOn(s, sep)[k], sep)
    decreases |s|
  {
    var r := SplitOn(s, sep);
    if |s| < |sep| {
    } else if s[..|sep|] == sep {
      SplitOnPiecesFreeOfSep(s[|sep|..], sep);
      assert r[0] == "";
      assert forall k :: 1 <= k < |r| ==> r[k] == SplitOn(s[|sep|..], sep)[k - 1];
    } else {
      var t := SplitOn(s[1..], sep);
      SplitOnPiecesFreeOfSep(s[1..], sep);
      var head := [s[0]] + t[0];
      assert head <= s;
      forall k: nat | k <= |head|
        ensures !ContainsAt(head, sep, k)
      {
        if k + |sep| > |head| {
        } else if k == 0 {
          assert head[..|sep|] == s[..|sep|];
        } else {
          assert head[k..k + |sep|] == t[0][k - 1..k - 1 + |sep|];
          assert !ContainsAt(t[0], sep, k - 1);
        }
      }
      assert !Contains(head, sep);
      assert forall k :: 1 <= k < |r| ==> r[k] == t[k];
    }
  }

  /** Every string of `xs` occurs in `xs.join(sep)`. */
  lemma {:induction false} JoinContainsEach(xs: seq<string>, sep: string, i: nat)
    requires i < |xs|
    ensures Contains(Join(xs, sep), xs[i])
  {
    if |xs| == 1 {
      ContainsPrefix(Join(xs, sep), xs[0]);
    } else if i == 0 {
      ContainsPrefix(Join(xs, sep), xs[0]);
    } else {
      JoinContainsEach(xs[1..], sep, i - 1);
      var k: nat :| k <= |Join(xs[1..], sep)| && ContainsAt(Join(xs[1..], sep), xs[i], k);
      ContainsAfter(xs[0] + sep, Join(xs[1..], sep), xs[i], k);
    }
  }

  // ---------------------------------------------------------------------------
  // Array.prototype.slice with one argument
  // ---------------------------------------------------------------------------

  /** `xs.slice(start)`: a negative `start` counts from the end and is
      clamped at 0; a positive one is clamped at the length. */
  function SliceFrom<T>(xs: seq<T>, start: int): (r: seq<T>)
    ensures start < 0 ==> |r| == Min(|xs|, -start)
    ensures start >= 0 ==> |r| == Max(|xs| - start, 0)
    ensures r == xs[|xs| - |r|..]
  {
    if start < 0 then xs[Max(|xs| + start, 0)..] else xs[Min(start, |xs|)..]
  }
}
