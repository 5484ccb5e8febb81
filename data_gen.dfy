/** Round generation: cleaning a comment's text, cutting it into tokens,
    rejecting unsuitable text, the seeded Fisher-Yates shuffle, and the pass
    that picks which comments of a post become rounds. */
module DataGen {
  import opened JsRuntime
  import opened Mulberry32

  // ---------------------------------------------------------------------------
  // Text cleaning
  // ---------------------------------------------------------------------------

  /** Function words that never become tokens. */
  const Stopwords: set<string> := {
    "i", "me", "my", "you", "your", "we", "they", "them", "the", "a", "an",
    "and", "or", "but", "is", "are", "was", "were", "to", "of", "in", "on",
    "for", "with", "how", "much", "this", "that", "it", "as", "at", "by",
    "from", "be", "been", "being", "if", "then", "so"
  }

  /** The characters of the class `[`*_>~#]`. */
  predicate IsMarkdownControl(c: char) {
    c == '`' || c == '*' || c == '_' || c == '>' || c == '~' || c == '#'
  }

  predicate NotMarkdown(c: char) {
    !IsMarkdownControl(c)
  }

  predicate IsAsciiUpper(c: char) {
    'A' <= c <= 'Z'
  }

  /** A global `replace` of a one-character class by '': every character
      satisfying `p` is deleted, every other one kept in order. */
  function DeleteWhere(s: string, p: char -> bool): (r: string)
    ensures forall k :: 0 <= k < |r| ==> !p(r[k])
    ensures Utf16Length(r) <= Utf16Length(s)
    decreases |s|
  {
    if |s| == 0 then ""
    else
      var rest := DeleteWhere(s[1..], p);
      if p(s[0]) then rest
      else
        assert ([s[0]] + rest)[1..] == rest;
        [s[0]] + rest
  }

  /** `DeleteWhere` removes every occurrence of the characters satisfying `p`
      and no occurrence of any other character. */
  lemma {:induction false} DeleteWhereCounts(s: string, p: char -> bool, c: char)
    ensures multiset(DeleteWhere(s, p))[c] == if p(c) then 0 else multiset(s)[c]
    decreases |s|
  {
    hide Utf16Length;
    if |s| > 0 {
      DeleteWhereCounts(s[1..], p, c);
      assert s == [s[0]] + s[1..];
    }
  }

  /** Length of the maximal run of non-whitespace characters at the front of
      `s`: what the greedy `\S+` consumes. */
  function NonSpaceRun(s: string): (n: nat)
    ensures n <= |s|
    ensures forall k :: 0 <= k < n ==> !IsWhiteSpace(s[k])
    ensures n < |s| ==> IsWhiteSpace(s[n])
    decreases |s|
  {
    if |s| == 0 || IsWhiteSpace(s[0]) then 0 else 1 + NonSpaceRun(s[1..])
  }

  /** Length of the match of `https?:\/\/\S+` that starts at the front of `s`,
      or 0 when no match starts there. */
  function UrlMatch(s: string): (n: nat)
    ensures n <= |s|
    ensures forall k :: 0 <= k < n ==> !IsWhiteSpace(s[k])
    ensures 0 < n < |s| ==> IsWhiteSpace(s[n])
  {
    if |s| > 8 && s[..8] == "https://" && !IsWhiteSpace(s[8]) then
      assert forall k :: 0 <= k < 8 ==> s[k] == "https://"[k];
      8 + NonSpaceRun(s[8..])
    else if |s| > 7 && s[..7] == "http://" && !IsWhiteSpace(s[7]) then
      assert forall k :: 0 <= k < 7 ==> s[k] == "http://"[k];
      7 + NonSpaceRun(s[7..])
    else 0
  }

  /** `stripUrls`: the matches of `https?:\/\/\S+` are deleted, scanning left
      to right. */
  function StripUrls(s: string): (r: string)
    ensures |r| <= |s|
    ensures Utf16Length(r) <= Utf16Length(s)
    decreases |s|
  {
    if |s| == 0 then ""
    else
      var n := UrlMatch(s);
      if n > 0 then
        Utf16LengthSuffix(s, n);
        StripUrls(s[n..])
      else
        var rest := StripUrls(s[1..]);
        assert s == [s[0]] + s[1..];
        assert ([s[0]] + rest)[1..] == rest;
        [s[0]] + rest
  }

  /** `stripUrls` only deletes: a property of characters that holds throughout
      `s` holds throughout the result. */
  lemma {:induction false} StripUrlsKeeps(s: string, q: char -> bool)
    requires forall k :: 0 <= k < |s| ==> q(s[k])
    ensures forall k :: 0 <= k < |StripUrls(s)| ==> q(StripUrls(s)[k])
    decreases |s|
  {
    if |s| > 0 {
      var n := UrlMatch(s);
      if n > 0 {
        assert forall k :: 0 <= k < |s| - n ==> s[n..][k] == s[n + k];
        StripUrlsKeeps(s[n..], q);
      } else {
        assert forall k :: 0 <= k < |s| - 1 ==> s[1..][k] == s[1 + k];
        StripUrlsKeeps(s[1..], q);
        var rest := StripUrls(s[1..]);
        assert forall k :: 0 < k < |rest| + 1 ==> ([s[0]] + rest)[k] == rest[k - 1];
      }
    }
  }

  /** Whether a match starts at the front of `x` is decided before its first
      whitespace character: when `x` agrees with `s` up to whitespace or its
      end, a match at the front of `x` is one at the front of `s`. */
  lemma MatchBeforeWhiteSpace(x: string, s: string, m: nat)
    requires m <= |x| && m <= |s| && x[..m] == s[..m]
    requires m == |x| || IsWhiteSpace(x[m])
    ensures UrlMatch(x) > 0 ==> UrlMatch(s) > 0
  {
    if UrlMatch(x) > 0 {
      var l := if |x| > 8 && x[..8] == "https://" && !IsWhiteSpace(x[8]) then 8 else 7;
      assert l < m;
      assert s[..l] == x[..m][..l];
      assert s[l] == x[..m][l];
    }
  }

  /** One step of `StripUrls` where a match starts. */
  lemma StripUrlsDrops(u: string)
    requires UrlMatch(u) > 0
    ensures StripUrls(u) == StripUrls(u[UrlMatch(u)..])
  {
  }

  /** One step of `StripUrls` where no match starts. */
  lemma StripUrlsKeepsFront(u: string)
    requires |u| > 0 && UrlMatch(u) == 0
    ensures StripUrls(u) == [u[0]] + StripUrls(u[1..])
  {
  }

  /** No match starts at whitespace. */
  lemma StripUrlsWhiteFrontMatch(v: string)
    requires |v| > 0 && IsWhiteSpace(v[0])
    ensures UrlMatch(v) == 0
  {
  }

  /** Text that starts with whitespace keeps that character in front. */
  lemma StripUrlsWhiteFront(v: string)
    requires |v| > 0 && IsWhiteSpace(v[0])
    ensures |StripUrls(v)| > 0 && StripUrls(v)[0] == v[0]
  {
    StripUrlsWhiteFrontMatch(v);
  }

  /** A run of non-whitespace ends at the first whitespace character, so what
      follows that character does not change it. */
  lemma {:induction false} NonSpaceRunExtend(a: string, c: char, y: string)
    requires IsWhiteSpace(c)
    ensures NonSpaceRun(a + [c] + y) == NonSpaceRun(a)
    decreases |a|
  {
    var z := a + [c] + y;
    if |a| == 0 {
      assert z[0] == c;
    } else {
      assert z[0] == a[0];
      assert z[1..] == a[1..] + [c] + y;
      NonSpaceRunExtend(a[1..], c, y);
    }
  }

  /** A match never reaches past whitespace: the match at the front of
      `x + [c] + y` is the one at the front of `x`. */
  lemma UrlMatchExtend(x: string, c: char, y: string)
    requires IsWhiteSpace(c)
    ensures UrlMatch(x + [c] + y) == UrlMatch(x)
  {
    hide IsWhiteSpace, NonSpaceRun;
    var z := x + [c] + y;
    assert z[|x|] == c;
    assert UrlMatch(z) <= |x|;
    if |x| > 7 {
      assert z[..7] == x[..7] && z[7] == x[7];
      assert z[7..] == x[7..] + [c] + y;
      NonSpaceRunExtend(x[7..], c, y);
    }
    if |x| > 8 {
      assert z[..8] == x[..8] && z[8] == x[8];
      assert z[8..] == x[8..] + [c] + y;
      NonSpaceRunExtend(x[8..], c, y);
    }
  }

  /** Whitespace survives `stripUrls`, and the text on either side of it is
      stripped independently. */
  lemma {:induction false} StripUrlsAroundWhite(x: string, c: char, y: string)
    requires IsWhiteSpace(c)
    ensures StripUrls(x + [c] + y) == StripUrls(x) + [c] + StripUrls(y)
    decreases |x|
  {
    hide StripUrls, UrlMatch, IsWhiteSpace;
    var z := x + [c] + y;
    if |x| == 0 {
      assert z == [c] + y;
      StripUrlsWhiteFrontMatch(z);
      StripUrlsKeepsFront(z);
      assert z[1..] == y;
      assert StripUrls(x) == "";
    } else {
      var n := UrlMatch(x);
      UrlMatchExtend(x, c, y);
      if n > 0 {
        StripUrlsDrops(z);
        StripUrlsDrops(x);
        assert z[n..] == x[n..] + [c] + y;
        StripUrlsAroundWhite(x[n..], c, y);
      } else {
        StripUrlsKeepsFront(z);
        StripUrlsKeepsFront(x);
        assert z[1..] == x[1..] + [c] + y;
        StripUrlsAroundWhite(x[1..], c, y);
        assert [x[0]] + (StripUrls(x[1..]) + [c] + StripUrls(y))
          == ([x[0]] + StripUrls(x[1..])) + [c] + StripUrls(y);
      }
    }
  }

  /** A text that is one whole match is deleted entirely. */
  lemma StripUrlsWholeUrl(u: string)
    requires 0 < UrlMatch(u) == |u|
    ensures StripUrls(u) == ""
  {
    StripUrlsDrops(u);
    assert u[UrlMatch(u)..] == "";
  }

  /** A URL set off by whitespace is deleted and everything around it, the
      whitespace included, is kept. */
  lemma StripUrlsRemovesUrl(x: string, c: char, u: string, d: char, y: string)
    requires IsWhiteSpace(c) && IsWhiteSpace(d)
    requires 0 < UrlMatch(u) == |u|
    ensures StripUrls(x + [c] + u + [d] + y) == StripUrls(x) + [c, d] + StripUrls(y)
  {
    hide StripUrls, UrlMatch, IsWhiteSpace;
    assert x + [c] + u + [d] + y == x + [c] + (u + [d] + y);
    StripUrlsAroundWhite(x, c, u + [d] + y);
    StripUrlsAroundWhite(u, d, y);
    StripUrlsWholeUrl(u);
    assert StripUrls(x) + [c] + ("" + [d] + StripUrls(y)) == StripUrls(x) + [c, d] + StripUrls(y);
  }

  /** The result of `StripUrls` agrees with its input up to the first
      whitespace character of the result, or its end: the first deleted match
      is followed by whitespace or by nothing. */
  lemma {:induction false} StripUrlsFollows(u: string) returns (j: nat)
    ensures j <= |u| && j <= |StripUrls(u)| && StripUrls(u)[..j] == u[..j]
    ensures j == |StripUrls(u)| || IsWhiteSpace(StripUrls(u)[j])
    decreases |u|
  {
    hide IsWhiteSpace, StripUrls;
    if |u| == 0 {
      j := 0;
    } else {
      var n := UrlMatch(u);
      if n > 0 {
        j := 0;
        StripUrlsDrops(u);
        if n < |u| {
          StripUrlsWhiteFront(u[n..]);
        }
      } else {
        hide UrlMatch;
        var j' := StripUrlsFollows(u[1..]);
        j := j' + 1;
        var rest := StripUrls(u[1..]);
        StripUrlsKeepsFront(u);
        assert ([u[0]] + rest)[..j] == [u[0]] + rest[..j'];
        assert u[..j] == [u[0]] + u[1..][..j'];
      }
    }
  }

  /** A character kept because no match starts at it does not start one in
      the result either. */
  lemma KeptStartsNoMatch(s: string)
    requires |s| > 0 && UrlMatch(s) == 0
    ensures UrlMatch([s[0]] + StripUrls(s[1..])) == 0
  {
    hide StripUrls, UrlMatch, IsWhiteSpace;
    var rest := StripUrls(s[1..]);
    var r := [s[0]] + rest;
    var j := StripUrlsFollows(s[1..]);
    assert r[..j + 1] == [s[0]] + rest[..j];
    assert s[..j + 1] == [s[0]] + s[1..][..j];
    MatchBeforeWhiteSpace(r, s, j + 1);
  }

  /** No match of `https?:\/\/\S+` is left anywhere in the result: after a
      deleted match the text resumes with whitespace or ends, so joining the
      text around it cannot form a new one. */
  lemma {:induction false} StripUrlsNoMatch(s: string)
    ensures forall i :: 0 <= i < |StripUrls(s)| ==> UrlMatch(StripUrls(s)[i..]) == 0
    decreases |s|
  {
    hide UrlMatch, IsWhiteSpace;
    if |s| > 0 {
      var n := UrlMatch(s);
      if n > 0 {
        StripUrlsNoMatch(s[n..]);
      } else {
        StripUrlsNoMatch(s[1..]);
        KeptStartsNoMatch(s);
        var rest := StripUrls(s[1..]);
        var r := [s[0]] + rest;
        assert StripUrls(s) == r;
        assert forall i :: 1 <= i < |r| ==> r[i..] == rest[i - 1..];
        assert r[0..] == r;
      }
    }
  }

  /** Text in which no match starts anywhere comes back unchanged. */
  lemma {:induction false} StripUrlsNoUrl(s: string)
    requires forall i :: 0 <= i <= |s| ==> UrlMatch(s[i..]) == 0
    ensures StripUrls(s) == s
    decreases |s|
  {
    if |s| > 0 {
      assert s[0..] == s;
      assert forall i :: 0 <= i <= |s| - 1 ==> s[1..][i..] == s[1 + i..];
      StripUrlsNoUrl(s[1..]);
    }
  }

  /** `stripMarkdown`: no markdown control character is left, and by
      `DeleteWhereCounts` every other character keeps its count. */
  function StripMarkdown(s: string): (r: string)
    ensures forall k :: 0 <= k < |r| ==> !IsMarkdownControl(r[k])
  {
    DeleteWhere(s, IsMarkdownControl)
  }

  /** `stripEmojis`. Which characters are Extended_Pictographic is a Unicode
      table; the model takes it as the parameter `pictographic`. */
  function StripEmojis(s: string, pictographic: char -> bool): (r: string)
    ensures forall k :: 0 <= k < |r| ==> !pictographic(r[k])
  {
    DeleteWhere(s, pictographic)
  }

  function LowerChar(c: char): char {
    if IsAsciiUpper(c) then (c as int + 32) as char else c
  }

  /** `toLowerCase`, on the ASCII letters. */
  function ToLower(s: string): (r: string)
    ensures |r| == |s|
    ensures forall k :: 0 <= k < |s| ==> r[k] == LowerChar(s[k])
    ensures Utf16Length(r) == Utf16Length(s)
    decreases |s|
  {
    if |s| == 0 then "" else
      var rest := ToLower(s[1..]);
      assert ([LowerChar(s[0])] + rest)[1..] == rest;
      [LowerChar(s[0])] + rest
  }

  /** Drops the whitespace at the front: `trimStart`, and also the skip over
      one `\s+` run. */
  function TrimStart(s: string): (r: string)
    ensures |r| <= |s| && r == s[|s| - |r|..]
    ensures forall k :: 0 <= k < |s| - |r| ==> IsWhiteSpace(s[k])
    ensures |r| > 0 ==> !IsWhiteSpace(r[0])
    decreases |s|
  {
    if |s| > 0 && IsWhiteSpace(s[0]) then TrimStart(s[1..]) else s
  }

  /** Drops the whitespace at the back. */
  function TrimEnd(s: string): (r: string)
    ensures |r| <= |s| && r == s[..|r|]
    ensures forall k :: |r| <= k < |s| ==> IsWhiteSpace(s[k])
    ensures |r| > 0 ==> !IsWhiteSpace(r[|r| - 1])
    decreases |s|
  {
    if |s| > 0 && IsWhiteSpace(s[|s| - 1]) then TrimEnd(s[..|s| - 1]) else s
  }

  /** `trim`. */
  function Trim(s: string): (r: string)
    ensures |r| > 0 ==> !IsWhiteSpace(r[0]) && !IsWhiteSpace(r[|r| - 1])
  {
    TrimEnd(TrimStart(s))
  }

  /** `trim` gives the slice of `s` that starts after its leading whitespace. */
  lemma TrimIsSlice(s: string)
    ensures var i := |s| - |TrimStart(s)|; i + |Trim(s)| <= |s| && Trim(s) == s[i..i + |Trim(s)|]
  {
    hide TrimStart, TrimEnd, IsWhiteSpace;
    var t := TrimStart(s);
    var i := |s| - |t|;
    var r := TrimEnd(t);
    assert t == s[i..];
    assert r == t[..|r|];
  }

  /** Two spaces in a row at index `k`. */
  predicate SpacePair(r: string, k: int)
    requires 0 <= k < |r| - 1
  {
    r[k] == ' ' && r[k + 1] == ' '
  }

  /** `replace(/\s+/g, ' ')`: every maximal whitespace run becomes one space. */
  function CollapseWhiteSpace(s: string): string
    decreases |s|
  {
    if |s| == 0 then ""
    else if IsWhiteSpace(s[0]) then [' '] + CollapseWhiteSpace(TrimStart(s[1..]))
    else [s[0]] + CollapseWhiteSpace(s[1..])
  }

  /** The collapsed text starts with a space exactly where the text starts with
      whitespace, and otherwise with the text's first character. */
  lemma CollapseStart(s: string)
    requires |s| > 0
    ensures |CollapseWhiteSpace(s)| > 0
    ensures CollapseWhiteSpace(s)[0] == if IsWhiteSpace(s[0]) then ' ' else s[0]
  {
  }

  /** Collapsing never lengthens the text: a run of whitespace code units
      becomes a single one. */
  lemma {:induction false} CollapseShortens(s: string)
    ensures Utf16Length(CollapseWhiteSpace(s)) <= Utf16Length(s)
    decreases |s|
  {
    hide IsWhiteSpace, TrimStart;
    if |s| > 0 {
      var tail := s[1..];
      var next := if IsWhiteSpace(s[0]) then TrimStart(tail) else tail;
      var head := if IsWhiteSpace(s[0]) then ' ' else s[0];
      var rest := CollapseWhiteSpace(next);
      CollapseShortens(next);
      assert CollapseWhiteSpace(s) == [head] + rest;
      assert ([head] + rest)[1..] == rest;
      Utf16LengthSuffix(tail, |tail| - |next|);
      assert tail[|tail| - |next|..] == next;
    }
  }

  /** A property of characters that holds of the space and of every
      non-whitespace character of `s` holds of every character of the
      collapsed text: collapsing only keeps non-whitespace characters and
      writes spaces. */
  lemma {:induction false} CollapseKeeps(s: string, p: char -> bool)
    requires p(' ')
    requires forall k :: 0 <= k < |s| && !IsWhiteSpace(s[k]) ==> p(s[k])
    ensures forall k :: 0 <= k < |CollapseWhiteSpace(s)| ==> p(CollapseWhiteSpace(s)[k])
    decreases |s|
  {
    hide IsWhiteSpace, TrimStart;
    if |s| > 0 {
      var tail := s[1..];
      var next := if IsWhiteSpace(s[0]) then TrimStart(tail) else tail;
      var head := if IsWhiteSpace(s[0]) then ' ' else s[0];
      assert forall k :: 0 <= k < |next| ==> next[k] == tail[|tail| - |next| + k] by {
        assert next == tail[|tail| - |next|..];
      }
      CollapseKeeps(next, p);
      var rest := CollapseWhiteSpace(next);
      var r := [head] + rest;
      assert CollapseWhiteSpace(s) == r;
      assert forall k :: 0 < k < |r| ==> r[k] == rest[k - 1];
    }
  }

  /** The only whitespace left by collapsing is the space. */
  lemma CollapseOnlySpaces(s: string)
    ensures forall k :: 0 <= k < |CollapseWhiteSpace(s)| ==> IsSpaceIfWhite(CollapseWhiteSpace(s)[k])
  {
    CollapseKeeps(s, IsSpaceIfWhite);
  }

  /** No two spaces are adjacent after collapsing. */
  lemma {:induction false} CollapseNoSpacePair(s: string)
    ensures forall k :: 0 <= k < |CollapseWhiteSpace(s)| - 1 ==> !SpacePair(CollapseWhiteSpace(s), k)
    decreases |s|
  {
    if |s| > 0 {
      assert IsWhiteSpace(' ');
      var tail := s[1..];
      var next := if IsWhiteSpace(s[0]) then TrimStart(tail) else tail;
      var head := if IsWhiteSpace(s[0]) then ' ' else s[0];
      CollapseNoSpacePair(next);
      var rest := CollapseWhiteSpace(next);
      var r := [head] + rest;
      assert CollapseWhiteSpace(s) == r;
      assert forall k :: 1 <= k < |r| - 1 ==> SpacePair(r, k) == SpacePair(rest, k - 1);
      if |rest| > 0 {
        CollapseStart(next);
        assert head != ' ' || rest[0] != ' ';
      }
    }
  }

  /** One step of `DeleteWhere`. */
  lemma DeleteWhereFront(s: string, p: char -> bool)
    requires |s| > 0
    ensures DeleteWhere(s, p) == (if p(s[0]) then "" else [s[0]]) + DeleteWhere(s[1..], p)
  {
  }

  /** The inductive step of `DeleteWhereAppend`. */
  lemma DeleteWhereAppendStep(a: string, b: string, p: char -> bool)
    requires |a| > 0
    requires DeleteWhere(a[1..] + b, p) == DeleteWhere(a[1..], p) + DeleteWhere(b, p)
    ensures DeleteWhere(a + b, p) == DeleteWhere(a, p) + DeleteWhere(b, p)
  {
    hide DeleteWhere, Utf16Length;
    var ab := a + b;
    assert ab[0] == a[0];
    assert ab[1..] == a[1..] + b;
    DeleteWhereFront(ab, p);
    DeleteWhereFront(a, p);
    var h := if p(a[0]) then "" else [a[0]];
    var x, y := DeleteWhere(a[1..], p), DeleteWhere(b, p);
    assert h + (x + y) == (h + x) + y;
  }

  /** `DeleteWhere` distributes over concatenation. */
  lemma {:induction false} DeleteWhereAppend(a: string, b: string, p: char -> bool)
    ensures DeleteWhere(a + b, p) == DeleteWhere(a, p) + DeleteWhere(b, p)
    decreases |a|
  {
    if |a| == 0 {
      assert a + b == b;
    } else {
      DeleteWhereAppend(a[1..], b, p);
      DeleteWhereAppendStep(a, b, p);
    }
  }

  /** Text made only of characters satisfying `p` is deleted entirely. */
  lemma {:induction false} DeleteWhereAll(s: string, p: char -> bool)
    requires forall k :: 0 <= k < |s| ==> p(s[k])
    ensures DeleteWhere(s, p) == ""
    decreases |s|
  {
    if |s| > 0 {
      assert forall k :: 0 <= k < |s| - 1 ==> s[1..][k] == s[k + 1];
      DeleteWhereAll(s[1..], p);
    }
  }

  /** The non-whitespace characters of `s`, in order. */
  function NonWhite(s: string): string {
    DeleteWhere(s, IsWhiteSpace)
  }

  /** Dropping leading whitespace keeps every non-whitespace character. */
  lemma TrimStartNonWhite(s: string)
    ensures NonWhite(TrimStart(s)) == NonWhite(s)
  {
    hide DeleteWhere, TrimStart, IsWhiteSpace, Utf16Length;
    var i := |s| - |TrimStart(s)|;
    assert s == s[..i] + TrimStart(s);
    DeleteWhereAppend(s[..i], TrimStart(s), IsWhiteSpace);
    assert forall k :: 0 <= k < i ==> s[..i][k] == s[k];
    DeleteWhereAll(s[..i], IsWhiteSpace);
  }

  /** Dropping trailing whitespace keeps every non-whitespace character. */
  lemma TrimEndNonWhite(s: string)
    ensures NonWhite(TrimEnd(s)) == NonWhite(s)
  {
    hide DeleteWhere, TrimEnd, IsWhiteSpace, Utf16Length;
    var r := TrimEnd(s);
    assert s == r + s[|r|..];
    DeleteWhereAppend(r, s[|r|..], IsWhiteSpace);
    assert forall k :: 0 <= k < |s| - |r| ==> s[|r|..][k] == s[|r| + k];
    DeleteWhereAll(s[|r|..], IsWhiteSpace);
  }

  /** Collapsing whitespace keeps every non-whitespace character, in order. */
  lemma {:induction false} CollapseNonWhite(s: string)
    ensures NonWhite(CollapseWhiteSpace(s)) == NonWhite(s)
    decreases |s|
  {
    if |s| > 0 {
      assert IsWhiteSpace(' ');
      var tail := s[1..];
      if IsWhiteSpace(s[0]) {
        CollapseNonWhite(TrimStart(tail));
        TrimStartNonWhite(tail);
        assert CollapseWhiteSpace(s) == [' '] + CollapseWhiteSpace(TrimStart(tail));
      } else {
        CollapseNonWhite(tail);
        assert CollapseWhiteSpace(s) == [s[0]] + CollapseWhiteSpace(tail);
      }
    }
  }

  /** A property of characters that holds of every character of `s` holds of
      every character left by `DeleteWhere`. */
  lemma {:induction false} DeleteKeeps(s: string, p: char -> bool, q: char -> bool)
    requires forall k :: 0 <= k < |s| ==> q(s[k])
    ensures forall k :: 0 <= k < |DeleteWhere(s, p)| ==> q(DeleteWhere(s, p)[k])
    decreases |s|
  {
    if |s| > 0 {
      DeleteKeeps(s[1..], p, q);
      var rest := DeleteWhere(s[1..], p);
      assert forall k :: 0 < k < |rest| + 1 ==> ([s[0]] + rest)[k] == rest[k - 1];
    }
  }

  /** Neither a markdown control character nor an ASCII capital. */
  predicate IsPlain(c: char) {
    !IsMarkdownControl(c) && !IsAsciiUpper(c)
  }

  predicate IsSpaceIfWhite(c: char) {
    IsWhiteSpace(c) ==> c == ' '
  }

  /** The character-level part of `normalize`, before whitespace handling. */
  function StripAndLower(s: string, pictographic: char -> bool): string {
    ToLower(StripEmojis(StripMarkdown(StripUrls(s)), pictographic))
  }

  /** Lower-casing an ASCII capital gives neither a capital nor a markdown
      control character. */
  lemma ToLowerPlain(s: string)
    requires forall k :: 0 <= k < |s| ==> !IsMarkdownControl(s[k])
    ensures forall k :: 0 <= k < |ToLower(s)| ==> IsPlain(ToLower(s)[k])
  {
  }

  /** After the character-level cleaning no markdown control character and no
      ASCII capital is left, and the text has not grown. */
  lemma StripAndLowerPlain(s: string, pictographic: char -> bool)
    ensures forall k :: 0 <= k < |StripAndLower(s, pictographic)| ==> IsPlain(StripAndLower(s, pictographic)[k])
    ensures Utf16Length(StripAndLower(s, pictographic)) <= Utf16Length(s)
  {
    var s2 := StripMarkdown(StripUrls(s));
    DeleteKeeps(s2, pictographic, NotMarkdown);
    ToLowerPlain(StripEmojis(s2, pictographic));
  }

  /** A property of characters that holds throughout `s` holds throughout
      `Trim(s)`. */
  lemma TrimKeeps(s: string, q: char -> bool)
    requires forall k :: 0 <= k < |s| ==> q(s[k])
    ensures forall k :: 0 <= k < |Trim(s)| ==> q(Trim(s)[k])
  {
    TrimIsSlice(s);
    var i := |s| - |TrimStart(s)|;
    assert forall k :: 0 <= k < |Trim(s)| ==> Trim(s)[k] == s[i + k];
  }

  /** Trimming cannot create two spaces in a row. */
  lemma TrimNoSpacePair(s: string)
    requires forall k :: 0 <= k < |s| - 1 ==> !SpacePair(s, k)
    ensures forall k :: 0 <= k < |Trim(s)| - 1 ==> !SpacePair(Trim(s), k)
  {
    TrimIsSlice(s);
    var r := Trim(s);
    var i := |s| - |TrimStart(s)|;
    assert forall k :: 0 <= k < |r| - 1 ==> SpacePair(r, k) == SpacePair(s, i + k);
  }

  /** Trimming never lengthens the text. */
  lemma TrimShortens(s: string)
    ensures Utf16Length(Trim(s)) <= Utf16Length(s)
  {
    TrimIsSlice(s);
    hide Trim, TrimStart, TrimEnd, IsWhiteSpace, Utf16Length;
    var i := |s| - |TrimStart(s)|;
    var j := i + |Trim(s)|;
    Utf16LengthSlice(s, i, j);
  }

  /** Trimming keeps every non-whitespace character. */
  lemma TrimNonWhite(s: string)
    ensures NonWhite(Trim(s)) == NonWhite(s)
  {
    TrimStartNonWhite(s);
    TrimEndNonWhite(TrimStart(s));
  }

  /** A word: a non-empty run of non-whitespace characters. */
  predicate IsWord(w: string) {
    |w| > 0 && forall i :: 0 <= i < |w| ==> !IsWhiteSpace(w[i])
  }

  /** The words of `s`: its maximal runs of non-whitespace characters, in
      order. */
  function Words(s: string): (ws: seq<string>)
    ensures forall k :: 0 <= k < |ws| ==> IsWord(ws[k])
    decreases |s|
  {
    var t := TrimStart(s);
    if |t| == 0 then []
    else
      var n := NonSpaceRun(t);
      var rest := Words(t[n..]);
      assert IsWord(t[..n]);
      assert forall k :: 0 < k < |rest| + 1 ==> ([t[..n]] + rest)[k] == rest[k - 1];
      [t[..n]] + rest
  }

  /** One step of `Words`. */
  lemma WordsFront(x: string)
    ensures var t := TrimStart(x); var n := NonSpaceRun(t);
      Words(x) == if |t| == 0 then [] else [t[..n]] + Words(t[n..])
  {
  }

  /** One step of `CollapseWhiteSpace`. */
  lemma CollapseFront(u: string)
    ensures CollapseWhiteSpace(u) ==
      if |u| == 0 then ""
      else if IsWhiteSpace(u[0]) then [' '] + CollapseWhiteSpace(TrimStart(u[1..]))
      else [u[0]] + CollapseWhiteSpace(u[1..])
  {
  }

  /** One step of `TrimStart` over a whitespace character. */
  lemma TrimStartFront(u: string)
    requires |u| > 0 && IsWhiteSpace(u[0])
    ensures TrimStart(u) == TrimStart(u[1..])
  {
  }

  /** A word keeps nothing to trim at its end, and loses a space after it. */
  lemma TrimEndWord(w: string)
    requires |w| > 0 && !IsWhiteSpace(w[|w| - 1])
    ensures TrimEnd(w) == w
    ensures TrimEnd(w + [' ']) == w
  {
    assert IsWhiteSpace(' ');
    assert (w + [' '])[..|w|] == w;
  }

  /** A run of non-whitespace characters passes through collapsing unchanged. */
  lemma {:induction false} CollapseRun(t: string)
    ensures CollapseWhiteSpace(t) == t[..NonSpaceRun(t)] + CollapseWhiteSpace(t[NonSpaceRun(t)..])
    decreases |t|
  {
    hide CollapseWhiteSpace, IsWhiteSpace;
    if |t| == 0 || IsWhiteSpace(t[0]) {
      assert t[..0] == "" && t[0..] == t;
    } else {
      var m := NonSpaceRun(t[1..]);
      assert NonSpaceRun(t) == m + 1;
      CollapseFront(t);
      CollapseRun(t[1..]);
      assert t[..m + 1] == [t[0]] + t[1..][..m];
      assert t[1..][m..] == t[m + 1..];
    }
  }

  /** Trailing whitespace is dropped only from the second half of a
      concatenation whose second half is not all whitespace. */
  lemma {:induction false} TrimEndAppend(a: string, b: string)
    requires |TrimEnd(b)| > 0
    ensures TrimEnd(a + b) == a + TrimEnd(b)
    decreases |b|
  {
    var ab := a + b;
    assert ab[|ab| - 1] == b[|b| - 1];
    if IsWhiteSpace(b[|b| - 1]) {
      assert ab[..|ab| - 1] == a + b[..|b| - 1];
      TrimEndAppend(a, b[..|b| - 1]);
    }
  }

  /** Collapsing commutes with dropping the leading whitespace. */
  lemma TrimStartCollapse(x: string)
    ensures TrimStart(CollapseWhiteSpace(x)) == CollapseWhiteSpace(TrimStart(x))
  {
    if |x| > 0 {
      assert IsWhiteSpace(' ');
      if IsWhiteSpace(x[0]) {
        var t := TrimStart(x[1..]);
        assert TrimStart(x) == t;
        var c := CollapseWhiteSpace(t);
        assert CollapseWhiteSpace(x) == [' '] + c;
        assert ([' '] + c)[1..] == c;
        if |t| > 0 {
          CollapseStart(t);
        }
      } else {
        CollapseStart(x);
      }
    }
  }

  /** A word followed by whitespace and the rest of the text: collapsing and
      dropping the trailing whitespace joins the word to the rest's words. */
  lemma CollapseRunSpace(w: string, u: string)
    requires |w| > 0 && !IsWhiteSpace(w[|w| - 1])
    requires |u| > 0 && IsWhiteSpace(u[0])
    requires TrimEnd(CollapseWhiteSpace(TrimStart(u))) == Join(Words(u), ' ')
    ensures TrimEnd(w + CollapseWhiteSpace(u)) == Join([w] + Words(u), ' ')
  {
    hide CollapseWhiteSpace, TrimStart, TrimEnd, Words, Join, IsWhiteSpace, NonSpaceRun;
    var t2 := TrimStart(u);
    TrimStartFront(u);
    CollapseFront(u);
    var v := CollapseWhiteSpace(t2);
    assert w + ([' '] + v) == (w + [' ']) + v;
    WordsFront(u);
    var ws := Words(u);
    if |t2| == 0 {
      CollapseFront(t2);
      assert v == "";
      assert CollapseWhiteSpace(u) == [' '];
      TrimEndWord(w);
      assert ws == [];
      assert [w] + ws == [w];
      JoinFront([w], ' ');
    } else {
      CollapseStart(t2);
      assert |TrimEnd(v)| > 0;
      TrimEndAppend(w + [' '], v);
      assert TrimEnd(w + CollapseWhiteSpace(u)) == w + [' '] + Join(ws, ' ');
      assert |ws| > 0;
      var xs := [w] + ws;
      assert xs[0] == w && xs[1..] == ws;
      JoinFront(xs, ' ');
    }
  }

  /** Collapsing text from its first word on and dropping the trailing
      whitespace gives the words joined by single spaces. */
  lemma {:induction false} CollapseWords(x: string)
    ensures TrimEnd(CollapseWhiteSpace(TrimStart(x))) == Join(Words(x), ' ')
    decreases |x|
  {
    hide CollapseWhiteSpace, TrimStart, TrimEnd, Words, Join, IsWhiteSpace, NonSpaceRun;
    var t := TrimStart(x);
    WordsFront(x);
    if |t| == 0 {
      CollapseFront(t);
      JoinFront([], ' ');
    } else {
      var n := NonSpaceRun(t);
      var w, u := t[..n], t[n..];
      CollapseRun(t);
      assert n > 0;
      assert w[|w| - 1] == t[n - 1];
      if |u| == 0 {
        CollapseFront(u);
        WordsFront(u);
        TrimEndWord(w);
        assert w + "" == w;
        assert [w] + [] == [w];
        JoinFront([w], ' ');
      } else {
        CollapseWords(u);
        CollapseRunSpace(w, u);
      }
    }
  }

  /** Collapsing and trimming leave exactly the words of the text, joined by
      single spaces. */
  lemma TrimCollapseWords(x: string)
    ensures Trim(CollapseWhiteSpace(x)) == Join(Words(x), ' ')
  {
    TrimStartCollapse(x);
    CollapseWords(x);
  }

  /** `normalize`: URLs, markdown control characters and pictographs removed,
      lower-cased, whitespace runs collapsed to one space, trimmed. */
  function Normalize(s: string, pictographic: char -> bool): (r: string)
    ensures forall k :: 0 <= k < |r| ==> IsPlain(r[k])
    ensures forall k :: 0 <= k < |r| ==> IsSpaceIfWhite(r[k])
    ensures forall k :: 0 <= k < |r| - 1 ==> !SpacePair(r, k)
    ensures |r| > 0 ==> r[0] != ' ' && r[|r| - 1] != ' '
    ensures Utf16Length(r) <= Utf16Length(s)
    ensures NonWhite(r) == NonWhite(StripAndLower(s, pictographic))
    ensures r == Join(Words(StripAndLower(s, pictographic)), ' ')
  {
    var s4 := StripAndLower(s, pictographic);
    TrimCollapseWords(s4);
    StripAndLowerPlain(s, pictographic);
    var s5 := CollapseWhiteSpace(s4);
    CollapseKeeps(s4, IsPlain);
    CollapseOnlySpaces(s4);
    CollapseNoSpacePair(s4);
    CollapseShortens(s4);
    TrimKeeps(s5, IsPlain);
    TrimKeeps(s5, IsSpaceIfWhite);
    TrimNoSpacePair(s5);
    TrimShortens(s5);
    CollapseNonWhite(s4);
    TrimNonWhite(s5);
    Trim(s5)
  }

  // ---------------------------------------------------------------------------
  // Tokens
  // ---------------------------------------------------------------------------

  /** The characters of the class `[a-z0-9']`. */
  predicate IsTokenChar(c: char) {
    ('a' <= c <= 'z') || ('0' <= c <= '9') || c == '\''
  }

  predicate NotTokenChar(c: char) {
    !IsTokenChar(c)
  }

  predicate IsDigit(c: char) {
    '0' <= c <= '9'
  }

  /** `/^\d+$/.test(t)`. */
  predicate AllDigits(t: string) {
    |t| > 0 && forall k :: 0 <= k < |t| ==> IsDigit(t[k])
  }

  predicate AllTokenChars(t: string) {
    forall k :: 0 <= k < |t| ==> IsTokenChar(t[k])
  }

  /** `t.replace(/[^a-z0-9']/g, '')`. */
  function KeepTokenChars(t: string): (r: string)
    ensures AllTokenChars(r)
  {
    DeleteWhere(t, NotTokenChar)
  }

  /** The four filters of the token chain. A cleaned token is ASCII, so its
      `length` is its number of characters. */
  predicate Qualifies(t: string) {
    t != "" && |t| >= 3 && t !in Stopwords && !AllDigits(t)
  }

  /** The `map` and `filter` steps applied to the pieces of the split. */
  function Candidates(parts: seq<string>): (tokens: seq<string>)
    ensures forall k :: 0 <= k < |tokens| ==> Qualifies(tokens[k]) && AllTokenChars(tokens[k])
    decreases |parts|
  {
    // The filters themselves play no part in the proof.
    hide Qualifies;
    if |parts| == 0 then []
    else
      var t := KeepTokenChars(parts[0]);
      var head := if Qualifies(t) then [t] else [];
      head + Candidates(parts[1..])
  }

  /** The token chain of `buildTokenRound`, from the normalized text. */
  function Tokenize(cleaned: string): (tokens: seq<string>)
    ensures forall k :: 0 <= k < |tokens| ==> Qualifies(tokens[k]) && AllTokenChars(tokens[k])
  {
    Candidates(Split(cleaned, ' '))
  }

  /** A word holds no space, so `split(' ')` cannot cut it. */
  lemma WordHasNoSpace(w: string)
    requires IsWord(w)
    ensures ' ' !in w
  {
    assert IsWhiteSpace(' ');
  }

  /** Splitting the normalized text at single spaces gives back its words
      (`split` of the empty string is the one empty piece). */
  lemma NormalizedPieces(s: string, pictographic: char -> bool)
    ensures var ws := Words(StripAndLower(s, pictographic));
      Split(Normalize(s, pictographic), ' ') == if |ws| == 0 then [""] else ws
  {
    var ws := Words(StripAndLower(s, pictographic));
    forall k | 0 <= k < |ws| ensures ' ' !in ws[k] {
      WordHasNoSpace(ws[k]);
    }
    if |ws| == 0 {
      JoinFront(ws, ' ');
    } else {
      SplitJoin(ws, ' ');
    }
  }

  /** The tokens of a comment are the qualifying candidates of its words. */
  lemma TokenizeWords(s: string, pictographic: char -> bool)
    ensures Tokenize(Normalize(s, pictographic)) == Candidates(Words(StripAndLower(s, pictographic)))
  {
    NormalizedPieces(s, pictographic);
    var ws := Words(StripAndLower(s, pictographic));
    if |ws| == 0 {
      assert Candidates([""]) == [];
    }
  }

  /** Candidates are taken piece by piece, in the order of the pieces. */
  lemma {:induction false} CandidatesAppend(xs: seq<string>, ys: seq<string>)
    ensures Candidates(xs + ys) == Candidates(xs) + Candidates(ys)
    decreases |xs|
  {
    hide Qualifies;
    if |xs| == 0 {
      assert xs + ys == ys;
    } else {
      var zs := xs + ys;
      assert zs[0] == xs[0];
      assert zs[1..] == xs[1..] + ys;
      CandidatesAppend(xs[1..], ys);
      var t := KeepTokenChars(xs[0]);
      var head: seq<string> := if Qualifies(t) then [t] else [];
      assert Candidates(xs) == head + Candidates(xs[1..]);
      assert Candidates(zs) == head + Candidates(zs[1..]);
      assert head + (Candidates(xs[1..]) + Candidates(ys)) == (head + Candidates(xs[1..])) + Candidates(ys);
    }
  }

  /** Every piece whose cleaned form qualifies yields a candidate, and every
      candidate is the cleaned form of some piece. */
  lemma {:induction false} CandidatesExactly(parts: seq<string>, t: string)
    ensures t in Candidates(parts) <==>
      exists k :: 0 <= k < |parts| && KeepTokenChars(parts[k]) == t && Qualifies(t)
    decreases |parts|
  {
    if |parts| > 0 {
      CandidatesExactly(parts[1..], t);
      assert forall k :: 1 <= k < |parts| ==> parts[k] == parts[1..][k - 1];
      if t in Candidates(parts[1..]) {
        var k :| 0 <= k < |parts| - 1 && KeepTokenChars(parts[1..][k]) == t && Qualifies(t);
        assert KeepTokenChars(parts[k + 1]) == t;
      }
    }
  }

  // ---------------------------------------------------------------------------
  // Removing repeats
  // ---------------------------------------------------------------------------

  /** The first occurrences of the elements of `s`, in order: what the `seen`
      filter keeps. */
  function Unique<T(==)>(s: seq<T>): (u: seq<T>)
    ensures Distinct(u)
    ensures forall k :: 0 <= k < |s| ==> s[k] in u
    ensures forall k :: 0 <= k < |u| ==> u[k] in s
    ensures |u| <= |s|
    decreases |s|
  {
    if |s| == 0 then []
    else
      var init := s[..|s| - 1];
      var u0 := Unique(init);
      assert s == init + [s[|s| - 1]];
      if s[|s| - 1] in u0 then u0 else u0 + [s[|s| - 1]]
  }

  /** Removing repeats leaves the length unchanged exactly when there were
      none: the test `unique.length !== tokens.length`. */
  lemma {:induction false} UniqueLengthIffDistinct<T>(s: seq<T>)
    ensures |Unique(s)| == |s| <==> Distinct(s)
    decreases |s|
  {
    if |s| > 0 {
      var init := s[..|s| - 1];
      var last := s[|s| - 1];
      UniqueLengthIffDistinct(init);
      assert s == init + [last];
      assert forall k :: 0 <= k < |init| ==> s[k] == init[k];
      if Distinct(s) {
        assert Distinct(init);
        assert last !in init;
      }
      if |Unique(s)| == |s| {
        assert |Unique(init)| == |init|;
        assert last !in Unique(init);
      }
    }
  }

  /** Without repeats, the `seen` filter keeps everything. */
  lemma {:induction false} UniqueOfDistinct<T>(s: seq<T>)
    requires Distinct(s)
    ensures Unique(s) == s
    decreases |s|
  {
    if |s| > 0 {
      var init := s[..|s| - 1];
      assert s == init + [s[|s| - 1]];
      assert forall k :: 0 <= k < |init| ==> s[k] == init[k];
      assert Distinct(init);
      UniqueOfDistinct(init);
    }
  }

  /** The dedupe pass: a `seen` set filled while scanning the tokens. */
  method Dedupe(tokens: seq<string>) returns (unique: seq<string>)
    ensures unique == Unique(tokens)
  {
    var seen: set<string> := {};
    unique := [];
    var k := 0;
    while k < |tokens|
      invariant 0 <= k <= |tokens|
      invariant unique == Unique(tokens[..k])
      invariant forall x :: x in seen <==> x in unique
    {
      var t := tokens[k];
      assert tokens[..k + 1][..k] == tokens[..k];
      if t !in seen {
        seen := seen + {t};
        unique := unique + [t];
      }
      k := k + 1;
    }
    assert tokens[..k] == tokens;
  }

  // ---------------------------------------------------------------------------
  // Shuffle
  // ---------------------------------------------------------------------------

  /** The destructuring swap `[a[i], a[j]] = [a[j], a[i]]`. */
  function Swap<T>(a: seq<T>, i: nat, j: nat): (b: seq<T>)
    requires i < |a| && j < |a|
    ensures |b| == |a| && b[i] == a[j] && b[j] == a[i]
    ensures forall k :: 0 <= k < |a| && k != i && k != j ==> b[k] == a[k]
  {
    a[i := a[j]][j := a[i]]
  }

  /** A swap rearranges the elements and loses none. */
  lemma SwapPermutes<T>(a: seq<T>, i: nat, j: nat)
    requires i < |a| && j < |a|
    ensures multiset(Swap(a, i, j)) == multiset(a)
  {
  }

  /** The iterations of the shuffle loop from index `i` down to 1, with the
      generator in state `state` before the first of them. */
  function ShuffleFrom<T>(a: seq<T>, i: int, state: bv32): (r: seq<T>)
    requires i < |a|
    ensures |r| == |a|
    decreases i
  {
    if i <= 0 then a
    else
      var next := state + Increment;
      var j := SwapIndex(Fraction(Mix(next)), i);
      ShuffleFrom(Swap(a, i, j), i - 1, next)
  }

  /** Every iteration only swaps, so the elements are the same ones. */
  lemma {:induction false} ShuffleFromPermutes<T>(a: seq<T>, i: int, state: bv32)
    requires i < |a|
    ensures multiset(ShuffleFrom(a, i, state)) == multiset(a)
    decreases i
  {
    hide Mix;
    if i > 0 {
      var next := state + Increment;
      var j := SwapIndex(Fraction(Mix(next)), i);
      SwapPermutes(a, i, j);
      ShuffleFromPermutes(Swap(a, i, j), i - 1, next);
    }
  }

  /** One iteration of the shuffle loop. */
  lemma ShuffleStep<T>(a: seq<T>, i: int, state: bv32, j: int)
    requires 0 < i < |a|
    requires j == SwapIndex(Fraction(Mix(state + Increment)), i)
    ensures ShuffleFrom(a, i, state) == ShuffleFrom(Swap(a, i, j), i - 1, state + Increment)
  {
  }

  /** `shuffle(arr, seed)` as a value. */
  function ShuffleOf<T>(arr: seq<T>, seed: int): (r: seq<T>)
    ensures |r| == |arr|
  {
    ShuffleFrom(arr, |arr| - 1, SeedBits(seed))
  }

  /** The shuffle is a permutation of its input. */
  lemma ShufflePermutes<T>(arr: seq<T>, seed: int)
    ensures multiset(ShuffleOf(arr, seed)) == multiset(arr)
  {
    ShuffleFromPermutes(arr, |arr| - 1, SeedBits(seed));
  }

  /** The body of the shuffle loop: draw, then swap `a[i]` with `a[j]`. */
  method ShuffleIteration<T>(a: array<T>, rng: Rng, i: int)
    requires 0 < i < a.Length
    modifies a, rng
    ensures rng.seed == old(rng.seed) + Increment
    ensures a[..] == Swap(old(a[..]), i, SwapIndex(Fraction(Mix(rng.seed)), i))
  {
    var x := rng.Next();
    var j := SwapIndex(x, i);
    a[i], a[j] := a[j], a[i];
  }

  /** `shuffle`: copy the input, then swap backwards index by index with the
      seeded generator. The input sequence is a value and stays as it is. */
  method Shuffle<T>(arr: seq<T>, seed: int) returns (r: seq<T>)
    ensures r == ShuffleOf(arr, seed)
  {
    // The generator's bit-level mixing plays no part in this proof.
    hide Mix;
    var rng := new Rng(seed);
    var a := new T[|arr|](k requires 0 <= k < |arr| => arr[k]);
    var i := |arr| - 1;
    ghost var goal := ShuffleOf(arr, seed);
    assert a[..] == arr;
    while i > 0
      invariant i < a.Length == |arr|
      invariant ShuffleFrom(a[..], i, rng.seed) == goal
      decreases i
    {
      ghost var before := a[..];
      ghost var state := rng.seed;
      ShuffleIteration(a, rng, i);
      ShuffleStep(before, i, state, SwapIndex(Fraction(Mix(rng.seed)), i));
      i := i - 1;
    }
    r := a[..];
  }

  /** The shuffle keeps a sequence without repeats without repeats. */
  lemma ShuffleKeepsDistinct<T>(arr: seq<T>, seed: int)
    requires Distinct(arr)
    ensures Distinct(ShuffleOf(arr, seed))
  {
    ShufflePermutes(arr, seed);
    PermutationKeepsDistinct(arr, ShuffleOf(arr, seed));
  }

  /** A sequence of at most one element comes back unchanged. */
  lemma ShuffleShort<T>(arr: seq<T>, seed: int)
    requires |arr| <= 1
    ensures ShuffleOf(arr, seed) == arr
  {
  }

  // ---------------------------------------------------------------------------
  // Building a round
  // ---------------------------------------------------------------------------

  /** The tokens in the order of the comment, and the order they are dealt in. */
  datatype TokenRound = TokenRound(correctTokens: seq<string>, shuffledTokens: seq<string>)

  /** Smallest normalized length, in UTF-16 code units, of a usable comment. */
  const MinCleanedLength := 30
  const MinTokens := 4
  const MaxTokens := 12
  const MaxTokenLength := 18

  /** `unique.some((t) => t.length > 18)`. */
  predicate SomeTooLong(tokens: seq<string>) {
    exists k :: 0 <= k < |tokens| && |tokens[k]| > MaxTokenLength
  }

  /** `buildTokenRound(raw, seed)` as a value, its guards in the source's order. */
  function BuildRound(raw: string, seed: int, pictographic: char -> bool): Option<TokenRound> {
    if raw == "" then None
    else
      var cleaned := Normalize(raw, pictographic);
      if Utf16Length(cleaned) < MinCleanedLength then None
      else if Includes(cleaned, "[deleted]") || Includes(cleaned, "[removed]") then None
      else
        var tokens := Tokenize(cleaned);
        var unique := Unique(tokens);
        if |unique| != |tokens| then None
        else if |unique| < MinTokens then None
        else if |unique| > MaxTokens then None
        else if SomeTooLong(unique) then None
        else Some(TokenRound(unique, ShuffleOf(unique, seed)))
  }

  /** `buildTokenRound`: the guards, the dedupe pass and the shuffle. */
  method BuildTokenRound(raw: string, seed: int, pictographic: char -> bool) returns (round: Option<TokenRound>)
    ensures round == BuildRound(raw, seed, pictographic)
  {
    if raw == "" {
      return None;
    }
    var cleaned := Normalize(raw, pictographic);
    if Utf16Length(cleaned) < MinCleanedLength {
      return None;
    }
    if Includes(cleaned, "[deleted]") || Includes(cleaned, "[removed]") {
      return None;
    }
    var tokens := Tokenize(cleaned);
    var unique := Dedupe(tokens);
    if |unique| != |tokens| {
      return None;
    }
    if |unique| < MinTokens {
      return None;
    }
    if |unique| > MaxTokens {
      return None;
    }
    if SomeTooLong(unique) {
      return None;
    }
    var shuffled := Shuffle(unique, seed);
    round := Some(TokenRound(unique, shuffled));
  }

  /** The three junk guards: no text, too little text after cleaning, or a
      deleted or removed comment. */
  lemma BuildRoundJunk(raw: string, seed: int, pictographic: char -> bool)
    requires raw == ""
      || Utf16Length(Normalize(raw, pictographic)) < MinCleanedLength
      || Includes(Normalize(raw, pictographic), "[deleted]")
      || Includes(Normalize(raw, pictographic), "[removed]")
    ensures BuildRound(raw, seed, pictographic) == None
  {
  }

  /** Cleaning never lengthens the text, so a comment shorter than 30 code
      units never makes a round. */
  lemma BuildRoundShortRaw(raw: string, seed: int, pictographic: char -> bool)
    requires Utf16Length(raw) < MinCleanedLength
    ensures BuildRound(raw, seed, pictographic) == None
  {
  }

  /** A round is built exactly when the guards pass: text that survives the
      junk guards and whose tokens are without repeats, between 4 and 12 of
      them, none longer than 18. */
  lemma BuildRoundSucceedsIff(raw: string, seed: int, pictographic: char -> bool)
    ensures BuildRound(raw, seed, pictographic).Some? <==>
      var cleaned := Normalize(raw, pictographic);
      var tokens := Tokenize(cleaned);
      && raw != ""
      && Utf16Length(cleaned) >= MinCleanedLength
      && !Includes(cleaned, "[deleted]") && !Includes(cleaned, "[removed]")
      && Distinct(tokens)
      && MinTokens <= |tokens| <= MaxTokens
      && forall k :: 0 <= k < |tokens| ==> |tokens[k]| <= MaxTokenLength
  {
    hide Normalize, Tokenize, ShuffleFrom, Mix, IsPlain, IsSpaceIfWhite, SpacePair, NonWhite, StripAndLower, Join, Words;
    if raw != "" {
      var tokens := Tokenize(Normalize(raw, pictographic));
      UniqueLengthIffDistinct(tokens);
      if Distinct(tokens) {
        UniqueOfDistinct(tokens);
      }
    }
  }

  /** One qualifying token that occurs twice anywhere rejects the comment. */
  lemma BuildRoundRepeatRejects(raw: string, seed: int, pictographic: char -> bool, i: nat, j: nat)
    requires i < j < |Tokenize(Normalize(raw, pictographic))|
    requires Tokenize(Normalize(raw, pictographic))[i] == Tokenize(Normalize(raw, pictographic))[j]
    ensures BuildRound(raw, seed, pictographic) == None
  {
    BuildRoundSucceedsIff(raw, seed, pictographic);
  }

  /** A token of a round: 3 to 18 characters from `[a-z0-9']`, not a stopword,
      not all digits (and therefore without a comma). */
  predicate IsRoundToken(t: string) {
    && 3 <= |t| <= MaxTokenLength
    && AllTokenChars(t)
    && t !in Stopwords
    && !AllDigits(t)
  }

  /** A qualifying token of at most 18 characters is a round token. */
  lemma QualifyingIsRoundToken(t: string)
    requires Qualifies(t) && AllTokenChars(t) && |t| <= MaxTokenLength
    ensures IsRoundToken(t)
  {
  }

  /** What a round promises: its tokens are those of the cleaned comment, in
      order, without repeats, 4 to 12 of them, each a round token; the dealt
      order is the seeded shuffle, a rearrangement of the same tokens. */
  lemma BuildRoundProperties(raw: string, seed: int, pictographic: char -> bool)
    requires BuildRound(raw, seed, pictographic).Some?
    ensures var round := BuildRound(raw, seed, pictographic).value;
      && round.correctTokens == Tokenize(Normalize(raw, pictographic))
      && Distinct(round.correctTokens)
      && MinTokens <= |round.correctTokens| <= MaxTokens
      && (forall k :: 0 <= k < |round.correctTokens| ==> IsRoundToken(round.correctTokens[k]))
      && round.shuffledTokens == ShuffleOf(round.correctTokens, seed)
      && multiset(round.shuffledTokens) == multiset(round.correctTokens)
      && Distinct(round.shuffledTokens)
  {
    hide Normalize, Tokenize, Mix, ShuffleFrom;
    BuildRoundSucceedsIff(raw, seed, pictographic);
    var tokens := Tokenize(Normalize(raw, pictographic));
    UniqueOfDistinct(tokens);
    forall k | 0 <= k < |tokens| ensures IsRoundToken(tokens[k]) {
      QualifyingIsRoundToken(tokens[k]);
    }
    ShufflePermutes(tokens, seed);
    ShuffleKeepsDistinct(tokens, seed);
  }

  /** Round tokens contain no comma, so `join()` keeps them apart. */
  lemma RoundTokenHasNoComma(t: string)
    requires AllTokenChars(t)
    ensures ',' !in t
  {
    forall k | 0 <= k < |t| ensures t[k] != ',' {
      assert IsTokenChar(t[k]);
    }
  }

  // ---------------------------------------------------------------------------
  // Choosing the comments of a post
  // ---------------------------------------------------------------------------

  /** A comment: its id and its body, which may be missing. */
  datatype Comment = Comment(id: string, body: Option<string>)

  /** One playable comment: its id and its index in the candidate list, which
      also fixes its seed. */
  datatype GamePostData = GamePostData(id: string, i: nat)

  /** The most rounds a post holds. */
  const MaxRounds := 30

  /** `comment.body || ''`. */
  function BodyText(c: Comment): string {
    match c.body
    case None => ""
    case Some(b) => b
  }

  /** The comment at index `i` makes a round under seed `seed + i`. */
  predicate Playable(comments: seq<Comment>, seed: int, pictographic: char -> bool, i: nat)
    requires i < |comments|
  {
    BuildRound(BodyText(comments[i]), seed + i, pictographic).Some?
  }

  /** Every playable comment among the first `n`, in order. */
  function PlayableBefore(comments: seq<Comment>, seed: int, pictographic: char -> bool, n: nat): (r: seq<GamePostData>)
    requires n <= |comments|
    ensures |r| <= n
    decreases n
  {
    if n == 0 then []
    else
      var prev := PlayableBefore(comments, seed, pictographic, n - 1);
      if Playable(comments, seed, pictographic, n - 1) then prev + [GamePostData(comments[n - 1].id, n - 1)]
      else prev
  }

  /** The first `MaxRounds` of a list. */
  function TakeRounds(r: seq<GamePostData>): seq<GamePostData> {
    if |r| <= MaxRounds then r else r[..MaxRounds]
  }

  /** The playable comments among the first `n` that come first in the list
      are the ones among the first `m`, for `n <= m`. */
  lemma {:induction false} PlayableBeforePrefix(comments: seq<Comment>, seed: int, pictographic: char -> bool, n: nat, m: nat)
    requires n <= m <= |comments|
    ensures var short := PlayableBefore(comments, seed, pictographic, n);
      |short| <= |PlayableBefore(comments, seed, pictographic, m)|
      && short == PlayableBefore(comments, seed, pictographic, m)[..|short|]
    decreases m - n
  {
    hide BuildRound;
    if n < m {
      PlayableBeforePrefix(comments, seed, pictographic, n, m - 1);
      var mid := PlayableBefore(comments, seed, pictographic, m - 1);
      var long := PlayableBefore(comments, seed, pictographic, m);
      assert long[..|mid|] == mid;
      var short := PlayableBefore(comments, seed, pictographic, n);
      assert long[..|mid|][..|short|] == long[..|short|];
    }
  }

  /** Every entry names a playable comment by its index and carries that
      comment's id. */
  predicate EntriesPlayable(comments: seq<Comment>, seed: int, pictographic: char -> bool, r: seq<GamePostData>) {
    forall k :: 0 <= k < |r| ==>
      r[k].i < |comments| && r[k].id == comments[r[k].i].id && Playable(comments, seed, pictographic, r[k].i)
  }

  /** The entries' indexes strictly increase. */
  predicate StrictlyIncreasing(r: seq<GamePostData>) {
    forall k, l :: 0 <= k < l < |r| ==> r[k].i < r[l].i
  }

  /** Some entry has index `m`. */
  predicate Lists(r: seq<GamePostData>, m: nat) {
    exists k :: 0 <= k < |r| && r[k].i == m
  }

  /** The entries for the first `n` comments are playable comments with their
      own ids, below `n`, in increasing order. */
  lemma {:induction false} PlayableBeforeEntries(comments: seq<Comment>, seed: int, pictographic: char -> bool, n: nat)
    requires n <= |comments|
    ensures var r := PlayableBefore(comments, seed, pictographic, n);
      && EntriesPlayable(comments, seed, pictographic, r)
      && StrictlyIncreasing(r)
      && (forall k :: 0 <= k < |r| ==> r[k].i < n)
    decreases n
  {
    hide BuildRound;
    if n > 0 {
      PlayableBeforeEntries(comments, seed, pictographic, n - 1);
      var prev := PlayableBefore(comments, seed, pictographic, n - 1);
      var r := PlayableBefore(comments, seed, pictographic, n);
      assert forall k :: 0 <= k < |prev| ==> r[k] == prev[k];
    }
  }

  /** Among the first `n` comments, exactly the playable ones are listed. */
  lemma {:induction false} PlayableBeforeLists(comments: seq<Comment>, seed: int, pictographic: char -> bool, n: nat)
    requires n <= |comments|
    ensures var r := PlayableBefore(comments, seed, pictographic, n);
      forall m: nat :: m < n ==> (Lists(r, m) <==> Playable(comments, seed, pictographic, m))
    decreases n
  {
    hide BuildRound;
    if n > 0 {
      PlayableBeforeLists(comments, seed, pictographic, n - 1);
      PlayableBeforeEntries(comments, seed, pictographic, n - 1);
      var prev := PlayableBefore(comments, seed, pictographic, n - 1);
      var r := PlayableBefore(comments, seed, pictographic, n);
      assert forall k :: 0 <= k < |prev| ==> r[k] == prev[k];
      forall m: nat | m < n ensures Lists(r, m) <==> Playable(comments, seed, pictographic, m) {
        if m < n - 1 {
          if Lists(r, m) {
            var k :| 0 <= k < |r| && r[k].i == m;
            assert k < |prev|;
            assert Lists(prev, m);
          }
          if Lists(prev, m) {
            var k :| 0 <= k < |prev| && prev[k].i == m;
            assert r[k].i == m;
          }
        } else {
          if Playable(comments, seed, pictographic, m) {
            assert r[|r| - 1].i == m;
          }
          if Lists(r, m) {
            var k :| 0 <= k < |r| && r[k].i == m;
            assert k == |prev|;
          }
        }
      }
    }
  }

  /** In a strictly increasing list, a smaller or equal index comes no later. */
  lemma IndexOrder(r: seq<GamePostData>, k: nat, l: nat)
    requires StrictlyIncreasing(r)
    requires k < |r| && l < |r| && r[k].i <= r[l].i
    ensures k <= l
  {
  }

  /** What `filterComments` promises: at most 30 entries, indexes strictly
      increasing, each entry a playable comment with its own id, and every
      playable comment before the cutoff listed. */
  lemma SelectionProperties(comments: seq<Comment>, seed: int, pictographic: char -> bool)
    ensures var gameData := TakeRounds(PlayableBefore(comments, seed, pictographic, |comments|));
      && |gameData| <= MaxRounds
      && EntriesPlayable(comments, seed, pictographic, gameData)
      && StrictlyIncreasing(gameData)
      && forall m: nat :: m < |comments| && Playable(comments, seed, pictographic, m)
           && (|gameData| < MaxRounds || m <= gameData[|gameData| - 1].i)
           ==> Lists(gameData, m)
  {
    hide BuildRound;
    var all := PlayableBefore(comments, seed, pictographic, |comments|);
    PlayableBeforeEntries(comments, seed, pictographic, |comments|);
    PlayableBeforeLists(comments, seed, pictographic, |comments|);
    var gameData := TakeRounds(all);
    assert forall k :: 0 <= k < |gameData| ==> gameData[k] == all[k];
    forall m: nat | m < |comments| && Playable(comments, seed, pictographic, m)
        && (|gameData| < MaxRounds || m <= gameData[|gameData| - 1].i)
      ensures Lists(gameData, m)
    {
      var k :| 0 <= k < |all| && all[k].i == m;
      if |gameData| == MaxRounds {
        IndexOrder(all, k, MaxRounds - 1);
      }
      assert gameData[k].i == m;
    }
  }

  /** `filterComments`: scan the comments with a counter, keep those that make
      a round, and stop once 30 are kept. */
  method FilterComments(comments: seq<Comment>, seed: int, pictographic: char -> bool) returns (gameData: seq<GamePostData>)
    ensures gameData == TakeRounds(PlayableBefore(comments, seed, pictographic, |comments|))
  {
    hide BuildRound;
    gameData := [];
    var i := 0;
    while i < |comments|
      invariant 0 <= i <= |comments|
      invariant gameData == PlayableBefore(comments, seed, pictographic, i)
      invariant |gameData| < MaxRounds
    {
      var round := BuildTokenRound(BodyText(comments[i]), seed + i, pictographic);
      if round.Some? {
        gameData := gameData + [GamePostData(comments[i].id, i)];
      }
      assert gameData == PlayableBefore(comments, seed, pictographic, i + 1);
      if |gameData| >= MaxRounds {
        ghost var all := PlayableBefore(comments, seed, pictographic, |comments|);
        PlayableBeforePrefix(comments, seed, pictographic, i + 1, |comments|);
        assert gameData == all[..MaxRounds];
        return;
      }
      i := i + 1;
    }
  }
}
