/**
 * The page markers that delimit a snippet's text, and the two regular
 * expression substitutions that remove them before display:
 * `re.sub("<START_SNIPPET_PAGE_\d+>", '', s)` followed by
 * `re.sub("<END_SNIPPET_PAGE_\d+>", '', s)`.
 *
 * A pattern `tag`, one or more digits, `>` is matched the way `re.sub` does:
 * scanning left to right, each match is removed and the scan resumes after
 * it, so matches never overlap and removed text is never rescanned.
 */
module Markers {
  import opened Text

  const StartTag := "<START_SNIPPET_PAGE_"
  const EndTag := "<END_SNIPPET_PAGE_"

  /** The marker that opens the text of page `n` (one-based). */
  function StartMarker(n: nat): string {
    StartTag + NatToString(n) + ">"
  }

  /** The marker that closes the text of page `n` (one-based). */
  function EndMarker(n: nat): string {
    EndTag + NatToString(n) + ">"
  }

  /** `m` is exactly `tag`, at least one digit, and `>`: one match of the pattern. */
  predicate IsMarker(m: string, tag: string) {
    |m| >= |tag| + 2 && m[..|tag|] == tag && m[|m| - 1] == '>' &&
    forall i :: |tag| <= i < |m| - 1 ==> IsDigit(m[i])
  }

  /** The number of leading digits of `s`: what a greedy `\d+` consumes. */
  function DigitRun(s: string): (d: nat)
    ensures d <= |s|
    ensures forall i :: 0 <= i < d ==> IsDigit(s[i])
    ensures d < |s| ==> !IsDigit(s[d])
  {
    if s == [] || !IsDigit(s[0]) then 0 else 1 + DigitRun(s[1..])
  }

  /**
   * The length of the match of the pattern at the very start of `s`, or 0
   * when no prefix of `s` is a marker.
   */
  function MatchAt(s: string, tag: string): (m: nat)
    ensures m <= |s|
  {
    if |tag| <= |s| && s[..|tag|] == tag then
      var d := DigitRun(s[|tag|..]);
      if 0 < d && |tag| + d < |s| && s[|tag| + d] == '>' then |tag| + d + 1 else 0
    else 0
  }

  /**
   * MatchAt finds the pattern exactly: a positive result is the length of a
   * marker at the start of `s`, and 0 means that no prefix of `s` is one.
   */
  lemma MatchAtExact(s: string, tag: string)
    ensures MatchAt(s, tag) > 0 ==> IsMarker(s[..MatchAt(s, tag)], tag)
    ensures MatchAt(s, tag) == 0 ==> forall j :: 0 < j <= |s| ==> !IsMarker(s[..j], tag)
  {
    var m := MatchAt(s, tag);
    if m > 0 {
      assert s[..m][..|tag|] == tag;
    } else {
      forall j | 0 < j <= |s| && IsMarker(s[..j], tag)
        ensures false
      {
      }
    }
  }

  /** `s` contains at least one match of the pattern. */
  predicate HasMarker(s: string, tag: string) {
    exists i :: 0 <= i < |s| && MatchAt(s[i..], tag) > 0
  }

  /** One `re.sub(tag + "\d+>", '', s)` pass. */
  function RemoveMarkers(s: string, tag: string): string
    decreases |s|
  {
    if s == [] then []
    else
      var m := MatchAt(s, tag);
      if m > 0 then RemoveMarkers(s[m..], tag) else [s[0]] + RemoveMarkers(s[1..], tag)
  }

  /** The display pass of the chat script: START markers first, then END markers. */
  function StripSnippet(s: string): string {
    RemoveMarkers(RemoveMarkers(s, StartTag), EndTag)
  }

  /**
   * The number inside the first marker of `s`, scanning left to right, or
   * None when `s` has no marker.
   */
  function FirstMarkerNumber(s: string, tag: string): Option<nat>
    decreases |s|
  {
    if s == [] then None
    else
      var m := MatchAt(s, tag);
      if m > 0 then Some(ParseNat(s[|tag|..m - 1])) else FirstMarkerNumber(s[1..], tag)
  }

  /**
   * What the proofs use of a marker tag: it opens with `<`, has no other `<`
   * and no newline.
   */
  predicate IsTag(tag: string) {
    |tag| > 1 && tag[0] == '<' &&
    forall i :: 0 <= i < |tag| ==> tag[i] != '\n' && (i > 0 ==> tag[i] != '<')
  }

  lemma SourceTags()
    ensures IsTag(StartTag) && IsTag(EndTag) && StartTag[1] != EndTag[1]
  {
  }

  /**
   * A match cannot cross a newline: matching at the start of `x + "\n" + y`
   * gives the same result as matching at the start of `x` alone.
   */
  lemma MatchAtNewline(x: string, y: string, tag: string)
    requires IsTag(tag)
    ensures MatchAt(x + "\n" + y, tag) == MatchAt(x, tag)
  {
    var s := x + "\n" + y;
    if |x| < |tag| {
      assert |tag| <= |s| ==> s[|x|] == '\n' != tag[|x|];
    } else if x[..|tag|] == tag {
      assert s[..|tag|] == tag;
      var xs, ss := x[|tag|..], s[|tag|..];
      assert ss == xs + "\n" + y;
      DigitRunNewline(xs, y);
    } else {
      assert s[..|tag|] == x[..|tag|];
    }
  }

  lemma {:induction false} DigitRunNewline(x: string, y: string)
    ensures DigitRun(x + "\n" + y) == DigitRun(x)
  {
    if x == [] {
      assert (x + "\n" + y)[0] == '\n';
    } else if IsDigit(x[0]) {
      assert (x + "\n" + y)[1..] == x[1..] + "\n" + y;
      DigitRunNewline(x[1..], y);
    }
  }

  /** Marker removal splits at a newline: each side is cleaned on its own. */
  lemma {:induction false} RemoveMarkersNewline(x: string, y: string, tag: string)
    requires IsTag(tag)
    ensures RemoveMarkers(x + "\n" + y, tag) == RemoveMarkers(x, tag) + "\n" + RemoveMarkers(y, tag)
    decreases |x|
  {
    var s := x + "\n" + y;
    if x == [] {
      assert s == "\n" + y && s[1..] == y;
      assert MatchAt(s, tag) == 0 by {
        assert s[0] == '\n' != tag[0];
      }
    } else {
      MatchAtNewline(x, y, tag);
      var m := MatchAt(x, tag);
      if m > 0 {
        assert s[m..] == x[m..] + "\n" + y;
        RemoveMarkersNewline(x[m..], y, tag);
      } else {
        assert s[1..] == x[1..] + "\n" + y;
        RemoveMarkersNewline(x[1..], y, tag);
      }
    }
  }

  /** A pass leaves `s` unchanged exactly when `s` holds no marker. */
  lemma {:induction false} RemoveMarkersIdentity(s: string, tag: string)
    ensures RemoveMarkers(s, tag) == s <==> !HasMarker(s, tag)
    decreases |s|
  {
    if s != [] {
      var m := MatchAt(s, tag);
      RemoveMarkersShorter(s[1..], tag);
      if m > 0 {
        RemoveMarkersShorter(s[m..], tag);
        assert MatchAt(s[0..], tag) > 0;
      } else {
        RemoveMarkersIdentity(s[1..], tag);
        if HasMarker(s[1..], tag) {
          var i :| 0 <= i < |s[1..]| && MatchAt(s[1..][i..], tag) > 0;
          assert s[1..][i..] == s[i + 1..];
        }
        if HasMarker(s, tag) {
          var i :| 0 <= i < |s| && MatchAt(s[i..], tag) > 0;
          assert i > 0;
          assert s[1..][i - 1..] == s[i..];
        }
      }
    }
  }

  lemma {:induction false} RemoveMarkersShorter(s: string, tag: string)
    ensures |RemoveMarkers(s, tag)| <= |s|
    decreases |s|
  {
    if s != [] {
      var m := MatchAt(s, tag);
      if m > 0 {
        RemoveMarkersShorter(s[m..], tag);
      } else {
        RemoveMarkersShorter(s[1..], tag);
      }
    }
  }

  /**
   * A pass removes a whole marker of its own kind, whatever digits it
   * carries (leading zeros included).
   */
  lemma OwnMarkerRemoved(m: string, tag: string)
    requires IsTag(tag) && IsMarker(m, tag)
    ensures RemoveMarkers(m, tag) == ""
  {
    var digits := m[|tag|..|m| - 1];
    assert AllDigits(digits) by {
      forall i | 0 <= i < |digits|
        ensures IsDigit(digits[i])
      {
        assert digits[i] == m[|tag| + i];
      }
    }
    assert m[|tag|..] == digits + ">";
    DigitRunOfNumber(digits, ">");
    assert MatchAt(m, tag) == |m|;
    assert m[|m|..] == [];
  }

  /** The marker a block writes for page number `n` is a match of the pattern. */
  lemma WrittenMarkerIsMarker(n: nat, tag: string)
    ensures IsMarker(tag + NatToString(n) + ">", tag)
  {
    var mk := tag + NatToString(n) + ">";
    assert mk[..|tag|] == tag;
    forall i | |tag| <= i < |mk| - 1
      ensures IsDigit(mk[i])
    {
      assert mk[i] == NatToString(n)[i - |tag|];
    }
  }

  lemma {:induction false} DigitRunOfNumber(digits: string, rest: string)
    requires AllDigits(digits)
    requires rest != [] && !IsDigit(rest[0])
    ensures DigitRun(digits + rest) == |digits|
  {
    if digits != [] {
      assert (digits + rest)[1..] == digits[1..] + rest;
      DigitRunOfNumber(digits[1..], rest);
    } else {
      assert digits + rest == rest;
    }
  }

  /** A pass leaves a marker of the other kind in place, whatever digits it carries. */
  lemma OtherMarkerKept(m: string, tag: string, other: string)
    requires IsTag(tag) && IsTag(other) && tag[1] != other[1]
    requires IsMarker(m, other)
    ensures RemoveMarkers(m, tag) == m
  {
    assert MatchAt(m, tag) == 0 by {
      assert m[1] == m[..|other|][1] == other[1] != tag[1];
    }
    forall i | 0 <= i < |m[1..]|
      ensures m[1..][i] != '<'
    {
      var j := i + 1;
      if j < |other| {
        assert m[j] == m[..|other|][j] == other[j];
      } else if j < |m| - 1 {
        assert IsDigit(m[j]);
      }
    }
    NoOpenBracketUnchanged(m[1..], tag);
    assert m == [m[0]] + m[1..];
  }

  /** A string without `<` holds no marker: every pattern starts with `<`. */
  lemma {:induction false} NoOpenBracketUnchanged(s: string, tag: string)
    requires IsTag(tag)
    requires forall i :: 0 <= i < |s| ==> s[i] != '<'
    ensures RemoveMarkers(s, tag) == s
    decreases |s|
  {
    if s != [] {
      assert MatchAt(s, tag) == 0 by {
        if |tag| <= |s| {
          assert s[..|tag|][0] == s[0] != tag[0];
        }
      }
      NoOpenBracketUnchanged(s[1..], tag);
      assert s == [s[0]] + s[1..];
    }
  }

  /**
   * The first marker of `marker + rest` is `marker` itself, and FirstMarkerNumber
   * reads back the number written into it.
   */
  lemma FirstMarkerOfMarker(n: nat, tag: string, rest: string)
    requires IsTag(tag)
    ensures FirstMarkerNumber(tag + NatToString(n) + ">" + rest, tag) == Some(n)
  {
    var digits := NatToString(n);
    var s := tag + digits + ">" + rest;
    assert s[..|tag|] == tag;
    assert s[|tag|..] == digits + (">" + rest);
    DigitRunOfNumber(digits, ">" + rest);
    assert s[|tag|..|tag| + |digits|] == digits;
    ParseNatToString(n);
  }

  /** The first marker of `x + "\n" + y`, when `x` holds none, is the first marker of `y`. */
  lemma {:induction false} FirstMarkerNewline(x: string, y: string, tag: string)
    requires IsTag(tag) && !HasMarker(x, tag)
    ensures FirstMarkerNumber(x + "\n" + y, tag) == FirstMarkerNumber(y, tag)
    decreases |x|
  {
    var s := x + "\n" + y;
    if x == [] {
      assert s[0] == '\n' != tag[0];
      assert MatchAt(s, tag) == 0;
      assert s[1..] == y;
    } else {
      MatchAtNewline(x, y, tag);
      assert MatchAt(x[0..], tag) == 0;
      assert x[0..] == x;
      assert !HasMarker(x[1..], tag) by {
        forall i | 0 <= i < |x[1..]|
          ensures MatchAt(x[1..][i..], tag) == 0
        {
          assert x[1..][i..] == x[i + 1..];
        }
      }
      assert s[1..] == x[1..] + "\n" + y;
      FirstMarkerNewline(x[1..], y, tag);
    }
  }

  /** Four lines, each ended by a newline. */
  function Lines4(a: string, b: string, c: string, d: string): string {
    a + "\n" + b + "\n" + c + "\n" + d + "\n"
  }

  lemma Lines4Nest(a: string, b: string, c: string, d: string)
    ensures Lines4(a, b, c, d) == a + "\n" + (b + "\n" + (c + "\n" + (d + "\n" + "")))
  {
    var t4 := d + "\n" + "";
    assert t4 == d + "\n";
    var t3 := c + "\n" + t4;
    assert t3 == c + "\n" + d + "\n";
    var t2 := b + "\n" + t3;
    assert t2 == b + "\n" + c + "\n" + d + "\n";
  }

  /** A pass cleans each of four lines on its own. */
  lemma RemoveMarkersLines4(a: string, b: string, c: string, d: string, tag: string)
    requires IsTag(tag)
    ensures RemoveMarkers(Lines4(a, b, c, d), tag) ==
      Lines4(RemoveMarkers(a, tag), RemoveMarkers(b, tag), RemoveMarkers(c, tag), RemoveMarkers(d, tag))
  {
    Lines4Nest(a, b, c, d);
    var r4 := d + "\n" + "";
    var r3 := c + "\n" + r4;
    var r2 := b + "\n" + r3;
    RemoveMarkersNewline(a, r2, tag);
    RemoveMarkersNewline(b, r3, tag);
    RemoveMarkersNewline(c, r4, tag);
    RemoveMarkersNewline(d, "", tag);
    var ra, rb, rc, rd := RemoveMarkers(a, tag), RemoveMarkers(b, tag), RemoveMarkers(c, tag), RemoveMarkers(d, tag);
    assert RemoveMarkers("", tag) == "";
    Lines4Nest(ra, rb, rc, rd);
  }
}
