/** Go's strings.TrimSpace over Unicode characters, and the confirmation
    answer built on it. */
module Text {

  /** Go's unicode.IsSpace: the Latin-1 spaces (tab, line feed, vertical
      tab, form feed, carriage return, space, NEL, no-break space) and the
      other characters with the Unicode White_Space property. */
  predicate IsSpace(c: char): (b: bool)
    ensures c as int < 0x80 ==>
              (b <==> (c == ' ' || c == '\t' || c == '\n' || c == '\r' || c as int == 0x0B || c as int == 0x0C))
    ensures b ==> 0x09 <= c as int <= 0x3000
  {
    var n := c as int;
    || (0x09 <= n <= 0x0D) || n == 0x20 || n == 0x85 || n == 0xA0
    || n == 0x1680 || (0x2000 <= n <= 0x200A) || n == 0x2028 || n == 0x2029
    || n == 0x202F || n == 0x205F || n == 0x3000
  }

  predicate AllSpace(s: string) {
    forall i :: 0 <= i < |s| ==> IsSpace(s[i])
  }

  /** The length of the run of whitespace that starts `s`. */
  function LeadingSpaces(s: string): (n: nat)
    ensures n <= |s| && AllSpace(s[..n])
    ensures n == |s| || !IsSpace(s[n])
  {
    if |s| == 0 || !IsSpace(s[0]) then 0
    else
      var rest := LeadingSpaces(s[1..]);
      assert s[..1 + rest] == [s[0]] + s[1..][..rest];
      1 + rest
  }

  /** The length of the run of whitespace that ends `s`. */
  function TrailingSpaces(s: string): (n: nat)
    ensures n <= |s| && AllSpace(s[|s| - n..])
    ensures n == |s| || !IsSpace(s[|s| - n - 1])
  {
    if |s| == 0 || !IsSpace(s[|s| - 1]) then 0
    else
      var init := s[..|s| - 1];
      var rest := TrailingSpaces(init);
      assert s[|s| - (1 + rest)..] == init[|init| - rest..] + [s[|s| - 1]];
      1 + rest
  }

  /** strings.TrimSpace: drop the leading and the trailing whitespace. */
  function TrimSpace(s: string): (r: string)
    ensures |r| <= |s|
    ensures r == [] || (!IsSpace(r[0]) && !IsSpace(r[|r| - 1]))
    ensures forall k :: 0 <= k < |r| ==> r[k] in s
  {
    var t := s[LeadingSpaces(s)..];
    t[..|t| - TrailingSpaces(t)]
  }

  /** The confirmation gate: the line typed at the prompt, trimmed, must be
      exactly "y" (case-sensitive, nothing else accepted). */
  predicate Confirmed(line: string): (b: bool)
    ensures b ==> 'y' in line
  {
    TrimSpace(line) == "y"
  }

  /** The run of leading whitespace is the only prefix of whitespace that
      is followed by a non-space or the end. */
  lemma LeadingSpacesUnique(s: string, n: nat)
    requires n <= |s| && AllSpace(s[..n])
    requires n == |s| || !IsSpace(s[n])
    ensures LeadingSpaces(s) == n
  {
    var m := LeadingSpaces(s);
    assert forall k :: 0 <= k < n ==> IsSpace(s[k]) by {
      forall k | 0 <= k < n ensures IsSpace(s[k]) { assert s[..n][k] == s[k]; }
    }
    assert forall k :: 0 <= k < m ==> IsSpace(s[k]) by {
      forall k | 0 <= k < m ensures IsSpace(s[k]) { assert s[..m][k] == s[k]; }
    }
  }

  /** The run of trailing whitespace is the only suffix of whitespace that
      is preceded by a non-space or the start. */
  lemma TrailingSpacesUnique(s: string, j: nat)
    requires j <= |s| && AllSpace(s[j..])
    requires j == 0 || !IsSpace(s[j - 1])
    ensures TrailingSpaces(s) == |s| - j
  {
    var i := |s| - TrailingSpaces(s);
    assert forall k :: j <= k < |s| ==> IsSpace(s[k]) by {
      forall k | j <= k < |s| ensures IsSpace(s[k]) { assert s[j..][k - j] == s[k]; }
    }
    assert forall k :: i <= k < |s| ==> IsSpace(s[k]) by {
      forall k | i <= k < |s| ensures IsSpace(s[k]) { assert s[i..][k - i] == s[k]; }
    }
  }

  /** Trimming undoes whitespace padding: a text that neither starts nor
      ends with whitespace comes back unchanged from any padding. */
  lemma TrimSpacePadded(w1: string, t: string, w2: string)
    requires AllSpace(w1) && AllSpace(w2)
    requires t == [] || (!IsSpace(t[0]) && !IsSpace(t[|t| - 1]))
    ensures TrimSpace(w1 + t + w2) == t
  {
    var s := w1 + t + w2;
    if t == [] {
      assert AllSpace(s[..|s|]) by {
        forall i | 0 <= i < |s| ensures IsSpace(s[i]) {
          if i < |w1| { assert s[i] == w1[i]; } else { assert s[i] == w2[i - |w1|]; }
        }
      }
      LeadingSpacesUnique(s, |s|);
    } else {
      assert s[..|w1|] == w1;
      assert s[|w1|] == t[0];
      LeadingSpacesUnique(s, |w1|);
      var u := s[|w1|..];
      assert u == t + w2;
      assert u[|u| - |w2|..] == w2;
      assert u[|u| - |w2| - 1] == t[|t| - 1];
      TrailingSpacesUnique(u, |t|);
      assert u[..|u| - |w2|] == t;
    }
  }

  /** The line a user confirms with: one "y" with only whitespace around it. */
  predicate PaddedYes(line: string) {
    exists i :: 0 <= i < |line| && line[i] == 'y' && AllSpace(line[..i]) && AllSpace(line[i + 1..])
  }

  lemma ConfirmedIsPaddedYes(line: string)
    requires Confirmed(line)
    ensures PaddedYes(line)
  {
    var n := LeadingSpaces(line);
    var t := line[n..];
    var m := TrailingSpaces(t);
    assert t[..|t| - m] == "y";
    assert line[n] == 'y';
    assert line[n + 1..] == t[|t| - m..];
  }

  lemma PaddedYesIsConfirmed(line: string)
    requires PaddedYes(line)
    ensures Confirmed(line)
  {
    var i :| 0 <= i < |line| && line[i] == 'y' && AllSpace(line[..i]) && AllSpace(line[i + 1..]);
    assert line == line[..i] + "y" + line[i + 1..];
    TrimSpacePadded(line[..i], "y", line[i + 1..]);
  }

  /** The answer is accepted exactly when the line is a single "y" with only
      whitespace around it. */
  lemma ConfirmedIff(line: string)
    ensures Confirmed(line) <==> PaddedYes(line)
  {
    if Confirmed(line) {
      ConfirmedIsPaddedYes(line);
    }
    if PaddedYes(line) {
      PaddedYesIsConfirmed(line);
    }
  }
}
