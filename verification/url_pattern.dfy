/** The URL acceptance test of the shorten handler, the pattern
    `^(https?:\/\/)([\w.-]+)(\.[a-z]{2,})([\/\w.-]*)*\/?$` with the `i` flag.

    It is stated twice: `RegexAccepts` follows the pattern's groups, and
    `IsValidUrl` scans the string once with a six-state automaton. The
    lemma `IsValidUrlCorrect` proves the two agree on every string. */
module UrlPattern {
  import opened Text

  /** `[\w.-]`, the characters of the host group. */
  predicate IsHostChar(c: char) {
    IsWordChar(c) || c == '.' || c == '-'
  }

  /** `[\/\w.-]`, the characters of the path group. */
  predicate IsPathChar(c: char) {
    IsHostChar(c) || c == '/'
  }

  /** `s` begins with the lower-case literal `prefix`, ignoring the case of `s`. */
  predicate StartsWithIgnoringCase(s: string, prefix: string) {
    |prefix| <= |s| && forall i | 0 <= i < |prefix| :: LowerChar(s[i]) == prefix[i]
  }

  // ---------------------------------------------------------------------
  // The pattern, group by group
  // ---------------------------------------------------------------------

  /** `r` splits as host `r[..i]` (one or more host characters), then
      `.` at `i`, then letters `r[i+1..j]` (two or more), then path
      characters `r[j..]`. The trailing `\/?` is absorbed by the path group. */
  predicate Segmented(r: string, i: int, j: int) {
    && 1 <= i && i + 3 <= j <= |r|
    && r[i] == '.'
    && (forall k | 0 <= k < i :: IsHostChar(r[k]))
    && (forall k | i < k < j :: IsLetter(r[k]))
    && (forall k | j <= k < |r| :: IsPathChar(r[k]))
  }

  /** The part of the pattern after the scheme matches `r`. */
  ghost predicate TailMatches(r: string) {
    exists i, j :: Segmented(r, i, j)
  }

  /** The pattern matches `s`: scheme `http://` or `https://` in any case,
      then a matching tail. */
  ghost predicate RegexAccepts(s: string) {
    || (StartsWithIgnoringCase(s, "http://") && TailMatches(s[7..]))
    || (StartsWithIgnoringCase(s, "https://") && TailMatches(s[8..]))
  }

  // ---------------------------------------------------------------------
  // The same language, described by properties of the characters
  // ---------------------------------------------------------------------

  predicate AllPathChars(r: string) {
    forall k | 0 <= k < |r| :: IsPathChar(r[k])
  }

  /** Position `i` holds a `.` that is not the first character, has no `/`
      before it, and is followed by two letters. */
  predicate DomainDot(r: string, i: int) {
    && 1 <= i && i + 2 < |r|
    && r[i] == '.' && IsLetter(r[i + 1]) && IsLetter(r[i + 2])
    && forall k | 0 <= k < i :: r[k] != '/'
  }

  ghost predicate HasDomainDot(r: string) {
    exists i :: DomainDot(r, i)
  }

  /** The pattern's groups say no more and no less than: only path
      characters, and some domain dot. */
  lemma TailMatchesIff(r: string)
    ensures TailMatches(r) <==> AllPathChars(r) && HasDomainDot(r)
  {
    if TailMatches(r) {
      var i, j :| Segmented(r, i, j);
      assert DomainDot(r, i) by {
        assert i < i + 1 < j && i < i + 2 < j;
      }
      forall k | 0 <= k < |r|
        ensures IsPathChar(r[k])
      {
        if k < i {
        } else if k == i {
        } else if k < j {
          assert IsLetter(r[k]);
        }
      }
    }
    if AllPathChars(r) && HasDomainDot(r) {
      var i :| DomainDot(r, i);
      assert Segmented(r, i, i + 3);
    }
  }

  // ---------------------------------------------------------------------
  // The scanner
  // ---------------------------------------------------------------------

  /** What the scanner knows about the characters read so far.
      `Start`: nothing read. `Host`: host characters only, no domain dot yet.
      `Dot`: as `Host`, ending in a dot that is not the first character.
      `DotLetter`: as `Host`, ending in such a dot and one letter.
      `Matched`: a domain dot has been seen and every character so far is a
      path character. `Rejected`: no continuation can match. */
  datatype ScanState = Start | Host | Dot | DotLetter | Matched | Rejected

  function Step(q: ScanState, c: char): ScanState {
    match q
    case Rejected => Rejected
    case Matched => if IsPathChar(c) then Matched else Rejected
    case Start => if IsHostChar(c) then Host else Rejected
    case Host =>
      if c == '.' then Dot
      else if IsHostChar(c) then Host
      else Rejected
    case Dot =>
      if IsLetter(c) then DotLetter
      else if c == '.' then Dot
      else if IsHostChar(c) then Host
      else Rejected
    case DotLetter =>
      if IsLetter(c) then Matched
      else if c == '.' then Dot
      else if IsHostChar(c) then Host
      else Rejected
  }

  /** Feeds `r` to the scanner, left to right, from state `q`. */
  function Run(q: ScanState, r: string): ScanState
    decreases |r|
  {
    if |r| == 0 then q else Run(Step(q, r[0]), r[1..])
  }

  /** The URL test the shorten handler applies. */
  function IsValidUrl(s: string): bool {
    if StartsWithIgnoringCase(s, "http://") then Run(Start, s[7..]) == Matched
    else if StartsWithIgnoringCase(s, "https://") then Run(Start, s[8..]) == Matched
    else false
  }

  // ---------------------------------------------------------------------
  // Correctness of the scanner
  // ---------------------------------------------------------------------

  /** The state the scanner should be in after reading `p`. */
  ghost function Expected(p: string): ScanState {
    if !AllPathChars(p) then Rejected
    else if HasDomainDot(p) then Matched
    else if '/' in p then Rejected
    else if |p| == 0 then Start
    else if |p| >= 2 && p[|p| - 1] == '.' then Dot
    else if |p| >= 3 && p[|p| - 2] == '.' && IsLetter(p[|p| - 1]) then DotLetter
    else Host
  }

  /** A domain dot of `p + [c]` is one of `p`, or the dot two places
      before `c`. */
  lemma DomainDotSnoc(p: string, c: char)
    ensures HasDomainDot(p + [c]) <==> HasDomainDot(p) || DomainDot(p + [c], |p| - 2)
  {
    var pc := p + [c];
    if HasDomainDot(pc) {
      var i :| DomainDot(pc, i);
      if i < |p| - 2 {
        forall k | 0 <= k < i
          ensures p[k] != '/'
        {
          assert pc[k] == p[k];
        }
        assert DomainDot(p, i);
      }
    }
    if HasDomainDot(p) {
      var i :| DomainDot(p, i);
      assert DomainDot(pc, i);
    }
  }

  lemma StepTracksExpected(p: string, c: char)
    ensures Step(Expected(p), c) == Expected(p + [c])
  {
    var pc := p + [c];
    var n := |p|;
    DomainDotSnoc(p, c);
    assert AllPathChars(pc) <==> AllPathChars(p) && IsPathChar(c) by {
      if AllPathChars(p) && IsPathChar(c) {
        forall k | 0 <= k < |pc|
          ensures IsPathChar(pc[k])
        {
          if k < n { assert pc[k] == p[k]; }
        }
      }
      if AllPathChars(pc) {
        forall k | 0 <= k < n
          ensures IsPathChar(p[k])
        {
          assert pc[k] == p[k];
        }
        assert pc[n] == c;
      }
    }
    assert ('/' in pc) <==> ('/' in p) || c == '/';
    if '/' in p && !HasDomainDot(p) {
      var k :| 0 <= k < n && p[k] == '/';
      assert pc[k] == '/';
      assert !DomainDot(pc, n - 2) by {
        if n >= 3 && pc[n - 2] == '.' && IsLetter(pc[n - 1]) {
          assert k < n - 2;
        }
      }
    }
    if n >= 2 {
      assert pc[n - 1] == p[n - 1] && pc[n - 2] == p[n - 2];
    }
    assert pc[n] == c;
  }

  lemma {:induction false} RunTracksExpected(p: string, r: string)
    ensures Run(Expected(p), r) == Expected(p + r)
    decreases |r|
  {
    if |r| == 0 {
      assert p + r == p;
    } else {
      StepTracksExpected(p, r[0]);
      RunTracksExpected(p + [r[0]], r[1..]);
      assert p + [r[0]] + r[1..] == p + r;
    }
  }

  /** Scanning a tail from the start state ends in `Matched` exactly when
      the pattern's tail matches it. */
  lemma ScanTailCorrect(r: string)
    ensures Run(Start, r) == Matched <==> TailMatches(r)
  {
    assert Expected([]) == Start;
    RunTracksExpected([], r);
    assert [] + r == r;
    TailMatchesIff(r);
  }

  /** The scanner accepts exactly the strings the pattern matches. */
  lemma IsValidUrlCorrect(s: string)
    ensures IsValidUrl(s) <==> RegexAccepts(s)
  {
    if StartsWithIgnoringCase(s, "http://") {
      ScanTailCorrect(s[7..]);
      assert !StartsWithIgnoringCase(s, "https://") by {
        assert LowerChar(s[4]) == ':';
      }
    } else if StartsWithIgnoringCase(s, "https://") {
      ScanTailCorrect(s[8..]);
    }
  }

  /** The accepted strings, described without the pattern: a scheme
      `http://` or `https://` in any case; after it only characters of
      `[A-Za-z0-9_./-]` (so no port, query or fragment); and a dot, not the
      first character after the scheme and before any `/`, followed by two
      letters. */
  lemma AcceptedUrlShape(s: string)
    ensures IsValidUrl(s) <==>
      || (StartsWithIgnoringCase(s, "http://") && AllPathChars(s[7..]) && HasDomainDot(s[7..]))
      || (StartsWithIgnoringCase(s, "https://") && AllPathChars(s[8..]) && HasDomainDot(s[8..]))
  {
    IsValidUrlCorrect(s);
    if |s| >= 7 { TailMatchesIff(s[7..]); }
    if |s| >= 8 { TailMatchesIff(s[8..]); }
  }
}
