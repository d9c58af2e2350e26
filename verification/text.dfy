/**
 * ASCII models of the JavaScript string primitives that the blog's helpers
 * chain together: `\s`, `\w`, `toLowerCase`, `toUpperCase`, `trim`, `split`,
 * `join`, `includes`, and the global regular-expression replacements built on
 * them (`/\s+/g`, `/\b\w/g`, `/<[^>]*>/g`).
 */
module Text {

  /** `\s` and what `String.prototype.trim` removes, on ASCII: space, TAB, LF, VT, FF, CR. */
  predicate IsSpace(c: char) { c == ' ' || '\t' <= c <= '\r' }

  predicate IsUpper(c: char) { 'A' <= c <= 'Z' }
  predicate IsLower(c: char) { 'a' <= c <= 'z' }
  predicate IsLetter(c: char) { IsUpper(c) || IsLower(c) }

  /** `\w`: ASCII letters, digits and the underscore. */
  predicate IsWordChar(c: char) { IsLetter(c) || '0' <= c <= '9' || c == '_' }

  predicate NoSpace(s: string) { forall i :: 0 <= i < |s| ==> !IsSpace(s[i]) }
  predicate IsLowerCase(s: string) { forall i :: 0 <= i < |s| ==> !IsUpper(s[i]) }

  // ---------------------------------------------------------------- case mapping

  /** `toLowerCase` on one character: only A-Z change. */
  function ToLowerChar(c: char): (d: char)
    ensures !IsUpper(d)
    ensures IsSpace(d) == IsSpace(c) && IsWordChar(d) == IsWordChar(c) && IsLetter(d) == IsLetter(c)
    ensures !IsUpper(c) ==> d == c
  {
    if IsUpper(c) then (c as int + 32) as char else c
  }

  /** `toUpperCase` on one character: only a-z change. */
  function ToUpperChar(c: char): (d: char)
    ensures !IsLower(d)
    ensures IsSpace(d) == IsSpace(c) && IsWordChar(d) == IsWordChar(c) && IsLetter(d) == IsLetter(c)
    ensures !IsLower(c) ==> d == c
    ensures ToLowerChar(d) == ToLowerChar(c)
  {
    if IsLower(c) then (c as int - 32) as char else c
  }

  function ToLower(s: string): (r: string)
    ensures |r| == |s| && IsLowerCase(r)
    ensures forall i :: 0 <= i < |s| ==> r[i] == ToLowerChar(s[i])
  {
    seq(|s|, i requires 0 <= i < |s| => ToLowerChar(s[i]))
  }

  /** Lower-casing a string that has no upper-case letter changes nothing. */
  lemma ToLowerOfLowerCase(s: string)
    requires IsLowerCase(s)
    ensures ToLower(s) == s
  {
  }

  // ---------------------------------------------------------------- trimming

  /** Drops leading whitespace (`trimStart`). */
  function TrimStart(s: string): (r: string)
    ensures |r| <= |s| && r == s[|s| - |r|..]
    ensures r == [] || !IsSpace(r[0])
    ensures forall i :: 0 <= i < |s| - |r| ==> IsSpace(s[i])
  {
    if s != [] && IsSpace(s[0]) then TrimStart(s[1..]) else s
  }

  /** Drops trailing whitespace (`trimEnd`). */
  function TrimEnd(s: string): (r: string)
    ensures |r| <= |s| && r == s[..|r|]
    ensures r == [] || !IsSpace(r[|r| - 1])
    ensures forall i :: |r| <= i < |s| ==> IsSpace(s[i])
  {
    if s != [] && IsSpace(s[|s| - 1]) then TrimEnd(s[..|s| - 1]) else s
  }

  /** `trim`. */
  function Trim(s: string): string
  {
    TrimEnd(TrimStart(s))
  }

  /** Neither leading nor trailing whitespace. */
  predicate Trimmed(s: string) { s == [] || (!IsSpace(s[0]) && !IsSpace(s[|s| - 1])) }

  /** The trimmed string neither starts nor ends with whitespace. */
  lemma TrimEnds(s: string)
    ensures Trimmed(Trim(s))
  {
    var t := TrimStart(s);
    var r := TrimEnd(t);
    if r != [] {
      assert r[0] == t[0];
    }
  }

  /** Trimming leaves nothing exactly when `s` is all whitespace. */
  lemma TrimBlank(s: string)
    ensures Trim(s) == [] <==> forall i :: 0 <= i < |s| ==> IsSpace(s[i])
  {
    var t := TrimStart(s);
    if TrimEnd(t) == [] {
      assert t == [];
    }
  }

  /** Trimming only drops characters: a property every character of `s` has,
      every character of the trimmed string has. */
  lemma TrimKeeps(s: string, p: char -> bool)
    requires forall i :: 0 <= i < |s| ==> p(s[i])
    ensures forall j :: 0 <= j < |Trim(s)| ==> p(Trim(s)[j])
  {
    var t := TrimStart(s);
    assert forall j :: 0 <= j < |t| ==> p(t[j]);
  }

  // ---------------------------------------------------------------- `/\s+/g` replacement

  /** `s.replace(/\s+/g, [c])`: every maximal run of whitespace becomes the single character `c`. */
  function ReplaceSpaceRuns(s: string, c: char): (r: string)
    decreases |s|
  {
    if s == [] then []
    else if IsSpace(s[0]) then [c] + ReplaceSpaceRuns(TrimStart(s), c)
    else [s[0]] + ReplaceSpaceRuns(s[1..], c)
  }

  /** No two adjacent whitespace characters, and every whitespace character is a plain space. */
  predicate SingleSpaced(s: string)
  {
    (forall i :: 0 <= i < |s| && IsSpace(s[i]) ==> s[i] == ' ') &&
    (forall i :: 0 <= i < |s| - 1 ==> !(IsSpace(s[i]) && IsSpace(s[i + 1])))
  }

  /** Only the empty string is replaced by the empty string. */
  lemma ReplaceSpaceRunsEmpty(s: string, c: char)
    ensures ReplaceSpaceRuns(s, c) == [] <==> s == []
  {
  }

  /** Each character of the replacement is `c` or a non-whitespace character
      of `s`, so a property those all have, every character of the result has. */
  lemma {:induction false} ReplaceSpaceRunsKeeps(s: string, c: char, p: char -> bool)
    requires p(c) && forall i :: 0 <= i < |s| && !IsSpace(s[i]) ==> p(s[i])
    ensures forall j :: 0 <= j < |ReplaceSpaceRuns(s, c)| ==> p(ReplaceSpaceRuns(s, c)[j])
    decreases |s|
  {
    if s == [] {
    } else if IsSpace(s[0]) {
      var t := TrimStart(s);
      assert forall i :: 0 <= i < |t| ==> t[i] == s[i + (|s| - |t|)];
      ReplaceSpaceRunsKeeps(t, c, p);
    } else {
      ReplaceSpaceRunsKeeps(s[1..], c, p);
    }
  }

  /** A string that ends in a non-whitespace character keeps it at the end. */
  lemma {:induction false} ReplaceSpaceRunsLast(s: string, c: char)
    requires s != [] && !IsSpace(s[|s| - 1])
    ensures var r := ReplaceSpaceRuns(s, c); r != [] && r[|r| - 1] == s[|s| - 1]
    decreases |s|
  {
    if IsSpace(s[0]) {
      var t := TrimStart(s);
      assert t != [] && t[|t| - 1] == s[|s| - 1];
      ReplaceSpaceRunsLast(t, c);
    } else if |s| > 1 {
      assert s[1..][|s| - 2] == s[|s| - 1];
      ReplaceSpaceRunsLast(s[1..], c);
    }
  }

  /** Replacing each run by a non-whitespace character leaves no whitespace. */
  lemma ReplaceSpaceRunsNoSpaceLeft(s: string, c: char)
    requires !IsSpace(c)
    ensures NoSpace(ReplaceSpaceRuns(s, c))
  {
    ReplaceSpaceRunsKeeps(s, c, x => !IsSpace(x));
  }

  /** Collapsing runs to one space leaves a single-spaced string. */
  lemma {:induction false} ReplaceSpaceRunsSingle(s: string)
    ensures SingleSpaced(ReplaceSpaceRuns(s, ' '))
    decreases |s|
  {
    var r := ReplaceSpaceRuns(s, ' ');
    ReplaceSpaceRunsKeeps(s, ' ', x => x == ' ' || !IsSpace(x));
    if s == [] {
    } else if IsSpace(s[0]) {
      var t := TrimStart(s);
      ReplaceSpaceRunsSingle(t);
      var rt := ReplaceSpaceRuns(t, ' ');
      assert r == [' '] + rt;
      assert rt != [] ==> rt[0] == t[0];
      forall i | 0 <= i < |r| - 1 ensures !(IsSpace(r[i]) && IsSpace(r[i + 1])) {
        if i > 0 { assert r[i] == rt[i - 1] && r[i + 1] == rt[i]; }
      }
    } else {
      ReplaceSpaceRunsSingle(s[1..]);
      var rt := ReplaceSpaceRuns(s[1..], ' ');
      assert r == [s[0]] + rt;
      forall i | 0 <= i < |r| - 1 ensures !(IsSpace(r[i]) && IsSpace(r[i + 1])) {
        if i > 0 { assert r[i] == rt[i - 1] && r[i + 1] == rt[i]; }
      }
    }
  }

  /** On a string without whitespace the replacement is the identity. */
  lemma {:induction false} ReplaceSpaceRunsNoSpace(s: string, c: char)
    requires NoSpace(s)
    ensures ReplaceSpaceRuns(s, c) == s
    decreases |s|
  {
    if s != [] {
      ReplaceSpaceRunsNoSpace(s[1..], c);
    }
  }

  /** On a single-spaced string, collapsing runs to one space is the identity. */
  lemma {:induction false} ReplaceSpaceRunsSingleSpaced(s: string)
    requires SingleSpaced(s)
    ensures ReplaceSpaceRuns(s, ' ') == s
    decreases |s|
  {
    if s != [] {
      assert SingleSpaced(s[1..]);
      ReplaceSpaceRunsSingleSpaced(s[1..]);
      if IsSpace(s[0]) {
        assert |s| > 1 ==> !IsSpace(s[1]);
        assert TrimStart(s) == s[1..];
      }
    }
  }

  /** `a` and `b` agree except that each may have a different whitespace character at the same place. */
  predicate SameUpToSpace(a: string, b: string)
  {
    |a| == |b| &&
    forall i :: 0 <= i < |a| ==> (IsSpace(a[i]) && IsSpace(b[i])) || a[i] == b[i]
  }

  lemma {:induction false} TrimStartSameUpToSpace(a: string, b: string)
    requires SameUpToSpace(a, b)
    ensures SameUpToSpace(TrimStart(a), TrimStart(b))
    decreases |a|
  {
    if a != [] && IsSpace(a[0]) {
      TrimStartSameUpToSpace(a[1..], b[1..]);
    }
  }

  lemma {:induction false} TrimEndSameUpToSpace(a: string, b: string)
    requires SameUpToSpace(a, b)
    ensures SameUpToSpace(TrimEnd(a), TrimEnd(b))
    decreases |a|
  {
    if a != [] && IsSpace(a[|a| - 1]) {
      TrimEndSameUpToSpace(a[..|a| - 1], b[..|b| - 1]);
    }
  }

  /** Whitespace replacement forgets which whitespace characters were there. */
  lemma {:induction false} ReplaceSpaceRunsSameUpToSpace(a: string, b: string, c: char)
    requires SameUpToSpace(a, b)
    ensures ReplaceSpaceRuns(a, c) == ReplaceSpaceRuns(b, c)
    decreases |a|
  {
    if a != [] {
      if IsSpace(a[0]) {
        TrimStartSameUpToSpace(a, b);
        ReplaceSpaceRunsSameUpToSpace(TrimStart(a), TrimStart(b), c);
      } else {
        ReplaceSpaceRunsSameUpToSpace(a[1..], b[1..], c);
      }
    }
  }

  lemma {:induction false} ReplaceSpaceRunsKeepsLowerCase(s: string, c: char)
    requires IsLowerCase(s) && !IsUpper(c)
    ensures IsLowerCase(ReplaceSpaceRuns(s, c))
  {
    ReplaceSpaceRunsKeeps(s, c, x => !IsUpper(x));
  }

  // ---------------------------------------------------------------- `/\b\w/g` replacement

  /** A word character that starts the string or follows a non-word character: where `\b\w` matches. */
  predicate AtWordStart(s: string, i: int)
    requires 0 <= i < |s|
  {
    IsWordChar(s[i]) && (i == 0 || !IsWordChar(s[i - 1]))
  }

  /** `s.replace(/\b\w/g, (c) => c.toUpperCase())`. */
  function UpperWordStarts(s: string): (r: string)
    ensures |r| == |s|
    ensures forall i :: 0 <= i < |s| ==> r[i] == if AtWordStart(s, i) then ToUpperChar(s[i]) else s[i]
  {
    seq(|s|, i requires 0 <= i < |s| => if AtWordStart(s, i) then ToUpperChar(s[i]) else s[i])
  }

  /** Upper-casing word starts does not move word boundaries, so doing it again changes nothing. */
  lemma UpperWordStartsIdempotent(s: string)
    ensures UpperWordStarts(UpperWordStarts(s)) == UpperWordStarts(s)
  {
    var r := UpperWordStarts(s);
    assert forall i :: 0 <= i < |s| ==> AtWordStart(r, i) == AtWordStart(s, i);
  }

  // ---------------------------------------------------------------- words, join, split

  /** The longest prefix of `s` without whitespace. */
  function TakeWord(s: string): (w: string)
    ensures |w| <= |s| && w == s[..|w|] && NoSpace(w)
    ensures |w| == |s| || IsSpace(s[|w|])
  {
    if s == [] || IsSpace(s[0]) then [] else [s[0]] + TakeWord(s[1..])
  }

  /** `s.split(/\s+/).filter(Boolean)`: the maximal runs of non-whitespace characters. */
  function Words(s: string): seq<string>
    decreases |s|
  {
    if s == [] then []
    else if IsSpace(s[0]) then Words(s[1..])
    else
      var w := TakeWord(s);
      [w] + Words(s[|w|..])
  }

  /** Every word is non-empty and holds no whitespace. */
  lemma {:induction false} WordsShape(s: string)
    ensures forall k :: 0 <= k < |Words(s)| ==> Words(s)[k] != [] && NoSpace(Words(s)[k])
    decreases |s|
  {
    if s == [] {
    } else if IsSpace(s[0]) {
      WordsShape(s[1..]);
    } else {
      var w := TakeWord(s);
      WordsShape(s[|w|..]);
    }
  }

  /** `ws.join(sep)`. */
  function Join(ws: seq<string>, sep: string): string
  {
    if |ws| == 0 then []
    else if |ws| == 1 then ws[0]
    else ws[0] + sep + Join(ws[1..], sep)
  }

  lemma JoinSingle(w: string, sep: string)
    ensures Join([w], sep) == w
  {
  }

  lemma JoinCons(w: string, ws: seq<string>, sep: string)
    requires ws != []
    ensures Join([w] + ws, sep) == w + sep + Join(ws, sep)
  {
    assert ([w] + ws)[1..] == ws;
  }

  /** A string of whitespace-only characters has no words. */
  lemma {:induction false} WordsOfBlank(s: string)
    requires forall i :: 0 <= i < |s| ==> IsSpace(s[i])
    ensures Words(s) == []
    decreases |s|
  {
    if s != [] {
      WordsOfBlank(s[1..]);
    }
  }

  lemma {:induction false} TakeWordOfJoin(w: string, rest: string)
    requires NoSpace(w)
    requires rest == [] || IsSpace(rest[0])
    ensures TakeWord(w + rest) == w
    decreases |w|
  {
    if w != [] {
      TakeWordOfJoin(w[1..], rest);
      assert (w + rest)[1..] == w[1..] + rest;
    } else {
      assert w + rest == rest;
    }
  }

  /** A word followed by a space and more text is the first word. */
  lemma {:induction false} WordsCons(w: string, rest: string)
    requires w != [] && NoSpace(w)
    ensures Words(w + " " + rest) == [w] + Words(rest)
  {
    var j := w + (" " + rest);
    assert j == w + " " + rest;
    TakeWordOfJoin(w, " " + rest);
    assert j[|w|..] == [' '] + rest;
    assert ([' '] + rest)[1..] == rest;
  }

  /** A single word is its own list of words. */
  lemma {:induction false} WordsSingle(w: string)
    requires w != [] && NoSpace(w)
    ensures Words(w) == [w]
  {
    TakeWordOfJoin(w, []);
    assert w + [] == w;
    assert w[|w|..] == [];
  }

  /** Splitting a single-space join of words gives the words back. */
  lemma {:induction false} WordsOfJoin(ws: seq<string>)
    requires forall k :: 0 <= k < |ws| ==> ws[k] != [] && NoSpace(ws[k])
    ensures Words(Join(ws, " ")) == ws
    decreases |ws|
  {
    if |ws| == 1 {
      WordsSingle(ws[0]);
    } else if |ws| > 1 {
      var w, tail := ws[0], ws[1..];
      var rest := Join(tail, " ");
      assert Join(ws, " ") == w + " " + rest;
      assert Words(w + " " + rest) == [w] + Words(rest) by {
        WordsCons(w, rest);
      }
      assert Words(rest) == tail by {
        WordsOfJoin(tail);
      }
      assert ws == [w] + tail;
    }
  }

  /** `s.split(sep)` for a non-empty separator: the pieces between the
      non-overlapping occurrences of `sep`, found left to right. */
  function Split(s: string, sep: string): (parts: seq<string>)
    requires sep != []
    ensures |parts| >= 1 && parts[0] <= s
    decreases |s|
  {
    if |s| < |sep| then [s]
    else if s[..|sep|] == sep then [[]] + Split(s[|sep|..], sep)
    else
      var rest := Split(s[1..], sep);
      [[s[0]] + rest[0]] + rest[1..]
  }

  /** A first character that does not start the separator joins the first part. */
  lemma SplitJoinHead(c: char, t: string, sep: string, glue: string)
    requires |sep| == 1 && c != sep[0]
    ensures Join(Split([c] + t, sep), glue) == [c] + Join(Split(t, sep), glue)
  {
    var s := [c] + t;
    assert s[1..] == t;
    assert s[..1] != sep;
    var rest := Split(t, sep);
    var head := [c] + rest[0];
    assert Split(s, sep) == [head] + rest[1..];
    if |rest| > 1 {
      assert rest == [rest[0]] + rest[1..];
      JoinCons(rest[0], rest[1..], glue);
      JoinCons(head, rest[1..], glue);
    }
  }

  /** A piece without the one-character separator, then the separator, splits off as the first part. */
  lemma {:induction false} SplitPrefix(w: string, rest: string, sep: string)
    requires |sep| == 1 && sep[0] !in w
    ensures Split(w + sep + rest, sep) == [w] + Split(rest, sep)
    decreases |w|
  {
    if w == [] {
      assert w + sep + rest == sep + rest;
      assert (sep + rest)[..1] == sep;
      assert (sep + rest)[1..] == rest;
    } else {
      var t := w[1..];
      SplitPrefix(t, rest, sep);
      assert w + sep + rest == [w[0]] + (t + sep + rest);
      SplitHead(w[0], t + sep + rest, sep);
      assert [w[0]] + t == w;
    }
  }

  /** A first character that is not the one-character separator joins the first part. */
  lemma SplitHead(c: char, t: string, sep: string)
    requires |sep| == 1 && c != sep[0]
    ensures var rest := Split(t, sep); Split([c] + t, sep) == [[c] + rest[0]] + rest[1..]
  {
    var s := [c] + t;
    assert s[1..] == t;
    assert s[..1] != sep;
  }

  /** Splitting pieces joined by a one-character separator they do not contain gives the pieces back. */
  lemma {:induction false} SplitJoin(ws: seq<string>, sep: string)
    requires |sep| == 1 && ws != [] && forall k :: 0 <= k < |ws| ==> sep[0] !in ws[k]
    ensures Split(Join(ws, sep), sep) == ws
    decreases |ws|
  {
    if |ws| == 1 {
      SplitWithoutChar(ws[0], sep);
    } else {
      SplitJoin(ws[1..], sep);
      SplitPrefix(ws[0], Join(ws[1..], sep), sep);
      assert ws == [ws[0]] + ws[1..];
    }
  }

  /** A string without the one-character separator splits into itself. */
  lemma {:induction false} SplitWithoutChar(s: string, sep: string)
    requires |sep| == 1 && sep[0] !in s
    ensures Split(s, sep) == [s]
    decreases |s|
  {
    if s != [] {
      SplitWithoutChar(s[1..], sep);
      SplitHead(s[0], s[1..], sep);
      assert s == [s[0]] + s[1..];
    }
  }

  /** Splitting a string made only of the separator character leaves only empty parts. */
  lemma {:induction false} SplitOfSeparators(s: string, sep: string)
    requires |sep| == 1 && forall i :: 0 <= i < |s| ==> s[i] == sep[0]
    ensures forall k :: 0 <= k < |Split(s, sep)| ==> Split(s, sep)[k] == []
    decreases |s|
  {
    if s != [] {
      assert s[..1] == sep;
      SplitOfSeparators(s[1..], sep);
    }
  }

  /** `s.includes(sub)`. */
  predicate Contains(s: string, sub: string)
    decreases |s|
  {
    sub <= s || (s != [] && Contains(s[1..], sub))
  }

  /** A string includes each of its infixes. */
  lemma {:induction false} ContainsInfix(pre: string, sub: string, post: string)
    ensures Contains(pre + sub + post, sub)
    decreases |pre|
  {
    var s := pre + sub + post;
    if pre == [] {
      assert s == sub + post;
    } else {
      ContainsInfix(pre[1..], sub, post);
      assert s[1..] == pre[1..] + sub + post;
    }
  }

  /** Each piece of a join stands in it between some prefix and suffix. */
  lemma {:induction false} JoinInfix(ws: seq<string>, sep: string, k: int) returns (pre: string, post: string)
    requires 0 <= k < |ws|
    ensures Join(ws, sep) == pre + ws[k] + post
    decreases |ws|
  {
    if |ws| == 1 {
      pre, post := [], [];
    } else if k == 0 {
      pre, post := [], sep + Join(ws[1..], sep);
    } else {
      var p, q := JoinInfix(ws[1..], sep, k - 1);
      pre, post := ws[0] + sep + p, q;
      assert ws[1..][k - 1] == ws[k];
    }
  }

  /** Joining the pieces of a split with the separator gives the original string back. */
  lemma {:induction false} JoinSplit(s: string, sep: string)
    requires sep != []
    ensures Join(Split(s, sep), sep) == s
    decreases |s|
  {
    if |s| < |sep| {
    } else if s[..|sep|] == sep {
      var rest := Split(s[|sep|..], sep);
      assert Split(s, sep) == [[]] + rest;
      JoinSplit(s[|sep|..], sep);
      JoinCons([], rest, sep);
      assert s == sep + s[|sep|..];
    } else {
      var rest := Split(s[1..], sep);
      var head := [s[0]] + rest[0];
      assert Split(s, sep) == [head] + rest[1..];
      JoinSplit(s[1..], sep);
      if |rest| == 1 {
        assert Join(Split(s, sep), sep) == head;
        assert rest[0] == s[1..];
      } else {
        var tail := Join(rest[1..], sep);
        assert rest == [rest[0]] + rest[1..];
        JoinCons(rest[0], rest[1..], sep);
        assert s[1..] == rest[0] + sep + tail;
        JoinCons(head, rest[1..], sep);
        assert Join(Split(s, sep), sep) == head + sep + tail;
        assert head + sep + tail == [s[0]] + (rest[0] + sep + tail);
      }
      assert s == [s[0]] + s[1..];
    }
  }

  /** No piece of a split contains the separator. */
  lemma {:induction false} SplitPiecesAvoidSeparator(s: string, sep: string)
    requires sep != []
    ensures forall k :: 0 <= k < |Split(s, sep)| ==> !Contains(Split(s, sep)[k], sep)
    decreases |s|
  {
    var parts := Split(s, sep);
    if |s| < |sep| {
      NotContainsShort(s, sep);
    } else if s[..|sep|] == sep {
      SplitPiecesAvoidSeparator(s[|sep|..], sep);
      NotContainsShort([], sep);
    } else {
      var rest := Split(s[1..], sep);
      SplitPiecesAvoidSeparator(s[1..], sep);
      var p := [s[0]] + rest[0];
      assert p <= s;
      assert !(sep <= p) by {
        if |sep| <= |p| { assert p[..|sep|] == s[..|sep|]; }
      }
      assert p[1..] == rest[0];
      forall k | 0 <= k < |parts| ensures !Contains(parts[k], sep) {
        if k > 0 { assert parts[k] == rest[k]; }
      }
    }
  }

  lemma {:induction false} NotContainsShort(s: string, sep: string)
    requires |s| < |sep|
    ensures !Contains(s, sep)
    decreases |s|
  {
    if s != [] { NotContainsShort(s[1..], sep); }
  }

  /** A string without the separator splits into itself. */
  lemma {:induction false} SplitWithoutSeparator(s: string, sep: string)
    requires sep != [] && !Contains(s, sep)
    ensures Split(s, sep) == [s]
    decreases |s|
  {
    if |s| >= |sep| {
      assert s[..|sep|] != sep;
      SplitWithoutSeparator(s[1..], sep);
      assert s == [s[0]] + s[1..];
    }
  }

  // ---------------------------------------------------------------- `/<[^>]*>/g` removal

  function IndexOf(s: string, c: char): (i: nat)
    requires c in s
    ensures i < |s| && s[i] == c && c !in s[..i]
  {
    if s[0] == c then 0 else 1 + IndexOf(s[1..], c)
  }

  /** `s.replace(/<[^>]*>/g, "")`: each `<` that has a `>` after it is removed together with
      everything up to and including the first such `>`. */
  function StripTags(s: string): (r: string)
    ensures forall i :: 0 <= i < |r| ==> r[i] in s
    decreases |s|
  {
    if s == [] then []
    else if s[0] == '<' && '>' in s then StripTags(s[IndexOf(s, '>') + 1..])
    else [s[0]] + StripTags(s[1..])
  }

  /** What is left after stripping holds no complete tag: no `<` is ever followed by a `>`. */
  predicate NoTag(r: string)
  {
    forall i, j :: 0 <= i < j < |r| && r[i] == '<' ==> r[j] != '>'
  }

  lemma {:induction false} StripTagsLeavesNoTag(s: string)
    ensures NoTag(StripTags(s))
    decreases |s|
  {
    if s == [] {
    } else if s[0] == '<' && '>' in s {
      var k := IndexOf(s, '>');
      assert StripTags(s) == StripTags(s[k + 1..]);
      StripTagsLeavesNoTag(s[k + 1..]);
    } else {
      StripTagsLeavesNoTag(s[1..]);
      var t := StripTags(s[1..]);
      var r := [s[0]] + t;
      assert StripTags(s) == r;
      assert forall x :: x in s[1..] ==> x in s;
      forall i, j | 0 <= i < j < |r| && r[i] == '<' ensures r[j] != '>' {
        if i == 0 {
          assert '>' !in s;
          assert r[j] == t[j - 1];
          assert t[j - 1] in s[1..];
        } else {
          assert r[i] == t[i - 1] && r[j] == t[j - 1];
          assert 0 <= i - 1 < j - 1 < |t| && t[i - 1] == '<';
          assert NoTag(t);
        }
      }
    }
  }
}
