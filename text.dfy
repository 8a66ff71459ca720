/** String helpers shared by both command-line scripts: the whitespace set that
    `trim` and the regular expression `\s` recognise (restricted here to ASCII),
    trimming, "the part after the last separator", ASCII lower-casing and the
    collapsing of whitespace runs. */
module Text {

  /** The whitespace characters of this model: space, tab, line feed, carriage
      return, vertical tab and form feed. */
  predicate IsSpace(c: char) {
    c == ' ' || c == '\t' || c == '\n' || c == '\r' || c == '\U{000B}' || c == '\U{000C}'
  }

  predicate NoSpace(s: string) {
    forall i :: 0 <= i < |s| ==> !IsSpace(s[i])
  }

  predicate AllSpace(s: string) {
    forall i :: 0 <= i < |s| ==> IsSpace(s[i])
  }

  predicate IsUpper(c: char) {
    'A' <= c <= 'Z'
  }

  predicate NoUpper(s: string) {
    forall i :: 0 <= i < |s| ==> !IsUpper(s[i])
  }

  predicate EndsWith(s: string, suffix: string) {
    |suffix| <= |s| && s[|s| - |suffix|..] == suffix
  }

  /** `s.includes(sub)` */
  predicate Contains(s: string, sub: string) {
    exists i :: 0 <= i <= |s| - |sub| && OccursAt(s, sub, i)
  }

  predicate OccursAt(s: string, sub: string, i: nat)
    requires i + |sub| <= |s|
  {
    s[i..i + |sub|] == sub
  }

  /** Leading whitespace removed: what is dropped is all whitespace, and what is
      left does not start with whitespace. */
  function TrimStart(s: string): (r: string)
    ensures |r| <= |s| && r == s[|s| - |r|..]
    ensures AllSpace(s[..|s| - |r|])
    ensures r == [] || !IsSpace(r[0])
  {
    if s == [] || !IsSpace(s[0]) then s else TrimStart(s[1..])
  }

  /** Trailing whitespace removed: what is dropped is all whitespace, and what is
      left does not end with whitespace. */
  function TrimEnd(s: string): (r: string)
    ensures |r| <= |s| && r == s[..|r|]
    ensures AllSpace(s[|r|..])
    ensures r == [] || !IsSpace(r[|r| - 1])
  {
    if s == [] || !IsSpace(s[|s| - 1]) then s else TrimEnd(s[..|s| - 1])
  }

  /** `s.trim()` over the whitespace set of this model. */
  function Trim(s: string): (r: string)
    ensures |r| <= |s|
    ensures r == [] || (!IsSpace(r[0]) && !IsSpace(r[|r| - 1]))
  {
    TrimEnd(TrimStart(s))
  }

  /** `trim` only removes characters: one absent before is absent after. */
  lemma TrimKeepsAbsent(s: string, c: char)
    requires c !in s
    ensures c !in Trim(s)
  {
  }

  lemma TrimStartOfUnspaced(s: string)
    requires s == [] || !IsSpace(s[0])
    ensures TrimStart(s) == s
  {
  }

  lemma TrimEndOfUnspaced(s: string)
    requires s == [] || !IsSpace(s[|s| - 1])
    ensures TrimEnd(s) == s
  {
  }

  /** A string already trimmed is left alone by `trim`. */
  lemma TrimOfTrimmed(s: string)
    requires s == [] || (!IsSpace(s[0]) && !IsSpace(s[|s| - 1]))
    ensures Trim(s) == s
  {
    TrimStartOfUnspaced(s);
    TrimEndOfUnspaced(s);
  }

  /** A string ending in `suffix` still ends in it after `trim` when `suffix`
      starts and ends with non-whitespace. */
  lemma {:induction false} TrimKeepsSuffix(s: string, suffix: string)
    requires EndsWith(s, suffix) && suffix != []
    requires !IsSpace(suffix[0]) && !IsSpace(suffix[|suffix| - 1])
    ensures EndsWith(Trim(s), suffix)
  {
    var t := TrimStart(s);
    assert t[|t| - |suffix|..] == s[|s| - |suffix|..];
    TrimEndOfUnspaced(t);
  }

  /** The text after the last `sep`, or the whole string when there is none: the
      last element of `s.split(sep)`. */
  function AfterLast(s: string, sep: char): (r: string)
    ensures |r| <= |s| && r == s[|s| - |r|..]
    ensures sep !in r
    ensures |r| < |s| ==> s[|s| - |r| - 1] == sep
  {
    if s == [] then []
    else if s[|s| - 1] == sep then []
    else AfterLast(s[..|s| - 1], sep) + [s[|s| - 1]]
  }

  /** `s.includes(sep) ? s.split(sep).pop() : s`: the text after the last
      `sep`, or all of `s` when it holds none. */
  function LastPart(s: string, sep: char): (r: string)
    ensures |r| <= |s| && r == s[|s| - |r|..]
    ensures sep !in r
    ensures |r| < |s| ==> s[|s| - |r| - 1] == sep
  {
    if sep in s then AfterLast(s, sep) else s
  }

  /** The part after the last `sep` starts right after any position holding the
      last `sep` of `s`. */
  lemma AfterLastAt(s: string, sep: char, k: nat)
    requires k < |s| && s[k] == sep && sep !in s[k + 1..]
    ensures AfterLast(s, sep) == s[k + 1..]
  {
    var r := AfterLast(s, sep);
    var start := |s| - |r|;
  }

  /** The part after the last `sep` covers any tail of `s` free of `sep`. */
  lemma AfterLastCoversTail(s: string, sep: char, n: nat)
    requires n <= |s| && forall x :: n <= x < |s| ==> s[x] != sep
    ensures |s| - n <= |AfterLast(s, sep)|
  {
    var r := AfterLast(s, sep);
    if |r| < |s| {
      var k := |s| - |r| - 1;
      assert s[k] == sep;
      assert k < n;
    }
  }

  /** A suffix free of `sep` survives taking the part after the last `sep`. */
  lemma {:induction false} AfterLastKeepsSuffix(s: string, sep: char, suffix: string)
    requires EndsWith(s, suffix) && sep !in suffix
    ensures EndsWith(AfterLast(s, sep), suffix)
  {
    var n := |s| - |suffix|;
    forall x | n <= x < |s| ensures s[x] != sep {
      assert s[x] == suffix[x - n];
    }
    AfterLastCoversTail(s, sep, n);
    var r := AfterLast(s, sep);
    assert r[|r| - |suffix|..] == s[n..];
  }

  function LowerChar(c: char): (d: char)
    ensures !IsUpper(d)
    ensures IsUpper(c) ==> d as int == c as int + 32
    ensures !IsUpper(c) ==> d == c
  {
    if IsUpper(c) then (c as int + 32) as char else c
  }

  /** `s.toLowerCase()` restricted to ASCII letters. */
  function LowerAscii(s: string): (r: string)
    ensures |r| == |s| && NoUpper(r)
    ensures forall i :: 0 <= i < |s| ==> r[i] == LowerChar(s[i])
  {
    seq(|s|, i requires 0 <= i < |s| => LowerChar(s[i]))
  }

  /** Lower-casing neither creates whitespace nor any character other than a
      lower-case letter that was not there. */
  lemma LowerAsciiKeeps(s: string, c: char)
    requires !('a' <= c <= 'z') && c !in s
    ensures c !in LowerAscii(s)
    ensures NoSpace(s) ==> NoSpace(LowerAscii(s))
  {
  }

  lemma LowerAsciiOfLower(s: string)
    requires NoUpper(s)
    ensures LowerAscii(s) == s
  {
  }

  /** `s.replace(/\s+/g, '-')`: every maximal run of whitespace becomes a single
      hyphen; every other character is kept. */
  function CollapseSpaces(s: string): (r: string)
    ensures |r| <= |s| && NoSpace(r)
    ensures forall i :: 0 <= i < |r| ==> r[i] == '-' || r[i] in s
    decreases |s|
  {
    if s == [] then []
    else if IsSpace(s[0]) then
      var rest := TrimStart(s);
      var tail := CollapseSpaces(rest);
      assert forall i :: 0 <= i < |tail| ==> tail[i] == '-' || tail[i] in s by {
        forall i | 0 <= i < |tail| && tail[i] != '-' ensures tail[i] in s {
          var k :| 0 <= k < |rest| && rest[k] == tail[i];
          assert s[|s| - |rest| + k] == rest[k];
        }
      }
      "-" + tail
    else
      var tail := CollapseSpaces(s[1..]);
      assert forall i :: 0 <= i < |tail| ==> tail[i] == '-' || tail[i] in s by {
        forall i | 0 <= i < |tail| && tail[i] != '-' ensures tail[i] in s {
          var k :| 0 <= k < |s[1..]| && s[1..][k] == tail[i];
          assert s[k + 1] == s[1..][k];
        }
      }
      [s[0]] + tail
  }

  /** Leading whitespace before text that starts with a non-space is all
      that `TrimStart` removes. */
  lemma {:induction false} TrimStartOfRun(w: string, v: string)
    requires AllSpace(w) && (v == [] || !IsSpace(v[0]))
    ensures TrimStart(w + v) == v
    decreases |w|
  {
    if w == [] {
      assert w + v == v;
    } else {
      assert (w + v)[0] == w[0];
      assert (w + v)[1..] == w[1..] + v;
      TrimStartOfRun(w[1..], v);
    }
  }

  /** Text ending in a non-space shields what follows it from `TrimStart`. */
  lemma {:induction false} TrimStartAppend(u: string, x: string)
    requires u != [] && !IsSpace(u[|u| - 1])
    ensures TrimStart(u + x) == TrimStart(u) + x
    decreases |u|
  {
    assert (u + x)[0] == u[0];
    if IsSpace(u[0]) {
      assert (u + x)[1..] == u[1..] + x;
      TrimStartAppend(u[1..], x);
    }
  }

  lemma CollapseSpacesOfSpace(s: string)
    requires s != [] && IsSpace(s[0])
    ensures CollapseSpaces(s) == "-" + CollapseSpaces(TrimStart(s))
  {
  }

  lemma CollapseSpacesOfChar(s: string)
    requires s != [] && !IsSpace(s[0])
    ensures CollapseSpaces(s) == [s[0]] + CollapseSpaces(s[1..])
  {
  }

  /** What `TrimStart` leaves of text ending in a non-space still ends in it. */
  lemma {:induction false} TrimStartKeepsLast(u: string)
    requires u != [] && !IsSpace(u[|u| - 1])
    ensures TrimStart(u) != [] && TrimStart(u)[|TrimStart(u)| - 1] == u[|u| - 1]
    ensures IsSpace(u[0]) ==> |TrimStart(u)| < |u|
    decreases |u|
  {
    if IsSpace(u[0]) {
      assert |u| > 1;
      assert u[1..][|u| - 2] == u[|u| - 1];
      TrimStartKeepsLast(u[1..]);
    }
  }

  lemma AppendAssoc<T>(a: seq<T>, b: seq<T>, c: seq<T>)
    ensures a + b + c == a + (b + c)
  {
  }

  /** Text that is empty or ends in a non-space is collapsed independently of
      what follows it. */
  lemma {:induction false} CollapseSpacesAppend(u: string, x: string)
    requires u == [] || !IsSpace(u[|u| - 1])
    ensures CollapseSpaces(u + x) == CollapseSpaces(u) + CollapseSpaces(x)
    decreases |u|
  {
    if u == [] {
      assert u + x == x;
    } else if IsSpace(u[0]) {
      CollapseSpacesAppendSpace(u, x);
    } else {
      CollapseSpacesAppendChar(u, x);
    }
  }

  lemma {:induction false} CollapseSpacesAppendSpace(u: string, x: string)
    requires u != [] && IsSpace(u[0]) && !IsSpace(u[|u| - 1])
    ensures CollapseSpaces(u + x) == CollapseSpaces(u) + CollapseSpaces(x)
    decreases |u|, 0
  {
    var t := TrimStart(u);
    assert (u + x)[0] == u[0];
    TrimStartAppend(u, x);
    TrimStartKeepsLast(u);
    calc {
      CollapseSpaces(u + x);
      { CollapseSpacesOfSpace(u + x); }
      "-" + CollapseSpaces(t + x);
      { CollapseSpacesAppend(t, x); }
      "-" + (CollapseSpaces(t) + CollapseSpaces(x));
      { AppendAssoc("-", CollapseSpaces(t), CollapseSpaces(x)); }
      "-" + CollapseSpaces(t) + CollapseSpaces(x);
      { CollapseSpacesOfSpace(u); }
      CollapseSpaces(u) + CollapseSpaces(x);
    }
  }

  lemma {:induction false} CollapseSpacesAppendChar(u: string, x: string)
    requires u != [] && !IsSpace(u[0]) && !IsSpace(u[|u| - 1])
    ensures CollapseSpaces(u + x) == CollapseSpaces(u) + CollapseSpaces(x)
    decreases |u|, 0
  {
    assert (u + x)[0] == u[0];
    assert (u + x)[1..] == u[1..] + x;
    calc {
      CollapseSpaces(u + x);
      { CollapseSpacesOfChar(u + x); }
      [u[0]] + CollapseSpaces(u[1..] + x);
      { CollapseSpacesAppend(u[1..], x); }
      [u[0]] + (CollapseSpaces(u[1..]) + CollapseSpaces(x));
      { AppendAssoc([u[0]], CollapseSpaces(u[1..]), CollapseSpaces(x)); }
      [u[0]] + CollapseSpaces(u[1..]) + CollapseSpaces(x);
      { CollapseSpacesOfChar(u); }
      CollapseSpaces(u) + CollapseSpaces(x);
    }
  }

  /** A whole run of whitespace between two non-space characters becomes one
      hyphen. */
  lemma CollapseSpacesRun(u: string, w: string, v: string)
    requires u == [] || !IsSpace(u[|u| - 1])
    requires w != [] && AllSpace(w)
    requires v == [] || !IsSpace(v[0])
    ensures CollapseSpaces(u + w + v) == CollapseSpaces(u) + "-" + CollapseSpaces(v)
  {
    assert (w + v)[0] == w[0];
    calc {
      CollapseSpaces(u + w + v);
      { AppendAssoc(u, w, v); }
      CollapseSpaces(u + (w + v));
      { CollapseSpacesAppend(u, w + v); }
      CollapseSpaces(u) + CollapseSpaces(w + v);
      { CollapseSpacesOfSpace(w + v); TrimStartOfRun(w, v); }
      CollapseSpaces(u) + ("-" + CollapseSpaces(v));
      { AppendAssoc(CollapseSpaces(u), "-", CollapseSpaces(v)); }
      CollapseSpaces(u) + "-" + CollapseSpaces(v);
    }
  }

  /** A run of whitespace between two words, lower-cased after collapsing,
      is one hyphen between the two lower-cased words. */
  lemma LowerCollapseRun(u: string, w: string, v: string)
    requires u == [] || !IsSpace(u[|u| - 1])
    requires w != [] && AllSpace(w)
    requires v == [] || !IsSpace(v[0])
    ensures LowerAscii(CollapseSpaces(u + w + v)) ==
            LowerAscii(CollapseSpaces(u)) + "-" + LowerAscii(CollapseSpaces(v))
  {
    var cu, cv := CollapseSpaces(u), CollapseSpaces(v);
    assert LowerAscii("-") == "-" by { assert LowerAscii("-")[0] == LowerChar('-'); }
    calc {
      LowerAscii(CollapseSpaces(u + w + v));
      { CollapseSpacesRun(u, w, v); }
      LowerAscii(cu + "-" + cv);
      { LowerAsciiAppend(cu + "-", cv); }
      LowerAscii(cu + "-") + LowerAscii(cv);
      { LowerAsciiAppend(cu, "-"); }
      LowerAscii(cu) + "-" + LowerAscii(cv);
    }
  }

  /** Joining two words with whitespace adds no non-space character. */
  lemma AbsentFromRun(u: string, w: string, v: string, c: char)
    requires c !in u && c !in v && AllSpace(w) && !IsSpace(c)
    ensures c !in u + w + v
  {
    var s := u + w + v;
    forall i | 0 <= i < |s| ensures s[i] != c {
      if i < |u| { assert s[i] == u[i]; }
      else if i < |u| + |w| { assert s[i] == w[i - |u|]; }
      else { assert s[i] == v[i - |u| - |w|]; }
    }
  }

  /** Lower-casing works character by character. */
  lemma LowerAsciiAppend(a: string, b: string)
    ensures LowerAscii(a + b) == LowerAscii(a) + LowerAscii(b)
  {
    var l := LowerAscii(a + b);
    assert forall i :: 0 <= i < |a| ==> l[i] == LowerChar(a[i]);
    assert forall i :: |a| <= i < |a + b| ==> l[i] == LowerChar(b[i - |a|]);
  }

  /** Text without whitespace is left alone. */
  lemma {:induction false} CollapseSpacesOfUnspaced(s: string)
    requires NoSpace(s)
    ensures CollapseSpaces(s) == s
    decreases |s|
  {
    if s != [] {
      assert !IsSpace(s[0]);
      CollapseSpacesOfUnspaced(s[1..]);
    }
  }

  /** The characters that are neither whitespace nor hyphens, in order. */
  function Visible(s: string): string
  {
    if s == [] then []
    else if IsSpace(s[0]) || s[0] == '-' then Visible(s[1..])
    else [s[0]] + Visible(s[1..])
  }

  lemma {:induction false} VisibleOfSpaces(s: string)
    requires AllSpace(s)
    ensures Visible(s) == []
  {
    if s != [] {
      VisibleOfSpaces(s[1..]);
    }
  }

  lemma {:induction false} VisibleAppend(a: string, b: string)
    ensures Visible(a + b) == Visible(a) + Visible(b)
  {
    if a != [] {
      assert (a + b)[0] == a[0];
      assert (a + b)[1..] == a[1..] + b;
      VisibleAppend(a[1..], b);
    } else {
      assert a + b == b;
    }
  }

  /** Collapsing whitespace loses and reorders none of the visible characters. */
  lemma {:induction false} CollapseSpacesKeepsVisible(s: string)
    ensures Visible(CollapseSpaces(s)) == Visible(s)
    decreases |s|
  {
    if s != [] {
      if IsSpace(s[0]) {
        var rest := TrimStart(s);
        var k := |s| - |rest|;
        assert s == s[..k] + rest;
        VisibleAppend(s[..k], rest);
        VisibleOfSpaces(s[..k]);
        CollapseSpacesKeepsVisible(rest);
        VisibleAppend("-", CollapseSpaces(rest));
      } else {
        CollapseSpacesKeepsVisible(s[1..]);
        VisibleAppend([s[0]], CollapseSpaces(s[1..]));
      }
    }
  }

  lemma {:induction false} VisibleOfTrimStart(s: string)
    ensures Visible(TrimStart(s)) == Visible(s)
  {
    if s != [] && IsSpace(s[0]) {
      VisibleOfTrimStart(s[1..]);
    }
  }

  lemma {:induction false} VisibleOfTrimEnd(s: string)
    ensures Visible(TrimEnd(s)) == Visible(s)
  {
    if s != [] && IsSpace(s[|s| - 1]) {
      var init := s[..|s| - 1];
      VisibleOfTrimEnd(init);
      assert s == init + [s[|s| - 1]];
      VisibleAppend(init, [s[|s| - 1]]);
      assert [s[|s| - 1]][1..] == [];
    }
  }

  /** `trim` removes only whitespace, so no visible character. */
  lemma {:induction false} VisibleOfTrim(s: string)
    ensures Visible(Trim(s)) == Visible(s)
  {
    VisibleOfTrimStart(s);
    VisibleOfTrimEnd(TrimStart(s));
  }

  /** Lower-casing commutes with keeping the visible characters: it neither
      creates nor removes whitespace or hyphens. */
  lemma {:induction false} VisibleOfLower(s: string)
    ensures Visible(LowerAscii(s)) == LowerAscii(Visible(s))
  {
    if s != [] {
      VisibleOfLower(s[1..]);
      assert LowerAscii(s)[1..] == LowerAscii(s[1..]);
      if !(IsSpace(s[0]) || s[0] == '-') {
        assert LowerAscii([s[0]] + Visible(s[1..])) == [LowerChar(s[0])] + LowerAscii(Visible(s[1..]));
      }
    }
  }
}
