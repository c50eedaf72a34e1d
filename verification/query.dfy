/** Query normalisation inside runQuery: a trailing `;` is stripped (the
    test looks at the trimmed text, the cut removes the last character of
    the untrimmed text) and ` LIMIT 25;` is appended unless the lower-cased
    text already mentions `limit` anywhere. */
module Query {

  /** The ASCII characters String.prototype.trim removes: space, and tab,
      line feed, vertical tab, form feed and carriage return. */
  predicate IsSpace(c: char)
  {
    c == ' ' || c == '\t' || c == '\n' || c == '\U{0B}' || c == '\U{0C}' || c == '\r'
  }

  /** The index of the first character at or after `from` that is not
      white space, or |s| when there is none. */
  function SkipSpace(s: string, from: nat): (i: nat)
    requires from <= |s|
    ensures from <= i <= |s|
    ensures forall k | from <= k < i :: IsSpace(s[k])
    ensures i < |s| ==> !IsSpace(s[i])
    decreases |s| - from
  {
    if from < |s| && IsSpace(s[from]) then SkipSpace(s, from + 1) else from
  }

  /** The index just after the last character before `to` that is not
      white space, or 0 when there is none. */
  function ContentEnd(s: string, to: nat): (j: nat)
    requires to <= |s|
    ensures j <= to
    ensures forall k | j <= k < to :: IsSpace(s[k])
    ensures j > 0 ==> !IsSpace(s[j - 1])
  {
    if to > 0 && IsSpace(s[to - 1]) then ContentEnd(s, to - 1) else to
  }

  /** s without leading and trailing white space (String.prototype.trim). */
  function Trim(s: string): (r: string)
    ensures |r| <= |s|
    ensures r != [] ==> !IsSpace(r[0]) && !IsSpace(r[|r| - 1])
  {
    var start := SkipSpace(s, 0);
    if start == |s| then [] else s[start..ContentEnd(s, |s|)]
  }

  /** Trimming only cuts white space: the result is the slice of s left
      after removing white space before and after it. */
  lemma TrimCutsOnlySpace(s: string)
    ensures exists a, b | 0 <= a <= b <= |s| ::
      Trim(s) == s[a..b] && (forall k | 0 <= k < a :: IsSpace(s[k])) && (forall k | b <= k < |s| :: IsSpace(s[k]))
  {
    var start := SkipSpace(s, 0);
    if start == |s| {
      assert Trim(s) == s[|s|..|s|];
    } else {
      var end := ContentEnd(s, |s|);
      assert !IsSpace(s[start]);
      assert Trim(s) == s[start..end];
    }
  }

  predicate EndsWith(s: string, suffix: string)
  {
    |suffix| <= |s| && s[|s| - |suffix|..] == suffix
  }

  /** Every character of s after index k is white space. */
  predicate SpaceAfter(s: string, k: nat)
  {
    forall m | k < m < |s| :: IsSpace(s[m])
  }

  /** The last character of s that is not white space is a `;`. */
  predicate EndsInSemicolon(s: string)
  {
    exists k | 0 <= k < |s| :: s[k] == ';' && SpaceAfter(s, k)
  }

  /** The test `query.trim().endsWith(";")` holds exactly when the last
      non-white-space character of the query is a `;`. */
  lemma TrimmedEndsWithSemicolon(q: string)
    ensures EndsWith(Trim(q), ";") <==> EndsInSemicolon(q)
  {
    if EndsWith(Trim(q), ";") {
      TrimmedSemicolonIsLast(q);
    }
    if EndsInSemicolon(q) {
      var k :| 0 <= k < |q| && q[k] == ';' && SpaceAfter(q, k);
      LastSemicolonSurvivesTrim(q, k);
    }
  }

  lemma TrimmedSemicolonIsLast(q: string)
    requires EndsWith(Trim(q), ";")
    ensures EndsInSemicolon(q)
  {
    var start := SkipSpace(q, 0);
    var end := ContentEnd(q, |q|);
    var t := Trim(q);
    assert start < |q| && t == q[start..end];
    assert t[|t| - 1..] == [';'];
    assert q[end - 1] == ';' && SpaceAfter(q, end - 1);
  }

  lemma LastSemicolonSurvivesTrim(q: string, k: nat)
    requires k < |q| && q[k] == ';' && SpaceAfter(q, k)
    ensures EndsWith(Trim(q), ";")
  {
    var start := SkipSpace(q, 0);
    var end := ContentEnd(q, |q|);
    assert !IsSpace(q[k]);
    assert start <= k < end;
    assert end - 1 == k by {
      assert !IsSpace(q[end - 1]);
    }
    var t := Trim(q);
    assert t == q[start..end];
    assert t[|t| - 1..] == [';'];
  }

  /** The query with the last character removed when the trimmed query ends
      with `;`. The removed character is the last character of the untrimmed
      query, so white space after the `;` is what gets removed. */
  function StripTerminator(query: string): (r: string)
    ensures |r| <= |query| && r == query[..|r|]
    ensures |query| - |r| == if EndsInSemicolon(query) then 1 else 0
  {
    TrimmedEndsWithSemicolon(query);
    if EndsWith(Trim(query), ";") then query[..|query| - 1] else query
  }

  /** When white space follows the `;`, the cut removes white space and the
      `;` is still the last non-white-space character of the statement. */
  lemma SpaceAfterSemicolonKeepsIt(query: string, k: nat)
    requires k < |query| - 1 && query[k] == ';' && SpaceAfter(query, k)
    ensures StripTerminator(query) + [query[|query| - 1]] == query
    ensures IsSpace(query[|query| - 1])
    ensures EndsInSemicolon(StripTerminator(query))
  {
    var r := query[..|query| - 1];
    assert StripTerminator(query) == r by {
      assert query[k] == ';' && SpaceAfter(query, k);
      assert EndsInSemicolon(query);
    }
    assert r[k] == ';' && SpaceAfter(r, k) by {
      forall m | k < m < |r|
        ensures IsSpace(r[m])
      {
        assert r[m] == query[m];
      }
    }
  }

  /** When the `;` is the very last character, it is what gets removed. */
  lemma FinalSemicolonRemoved(query: string)
    requires |query| > 0 && query[|query| - 1] == ';'
    ensures StripTerminator(query) == query[..|query| - 1]
  {
    assert EndsInSemicolon(query) by {
      assert query[|query| - 1] == ';' && SpaceAfter(query, |query| - 1);
    }
    assert StripTerminator(query) == query[..|query| - 1];
  }

  /** ASCII lower-casing of one character. */
  function LowerChar(c: char): char
  {
    if 'A' <= c <= 'Z' then (c as int - 'A' as int + 'a' as int) as char else c
  }

  /** ASCII lower-casing: capitals become small letters, every other
      character is kept. */
  function ToLower(s: string): (r: string)
    ensures |r| == |s|
    ensures forall i | 0 <= i < |s| :: !('A' <= r[i] <= 'Z')
    ensures forall i | 0 <= i < |s| && !('A' <= s[i] <= 'Z') :: r[i] == s[i]
    ensures forall i | 0 <= i < |s| && 'A' <= s[i] <= 'Z' :: r[i] as int == s[i] as int + 32
  {
    seq(|s|, i requires 0 <= i < |s| => LowerChar(s[i]))
  }

  /** pattern occurs in s starting at index i. */
  predicate OccursAt(s: string, pattern: string, i: nat)
  {
    i + |pattern| <= |s| && s[i..i + |pattern|] == pattern
  }

  /** pattern occurs in s as a contiguous substring (String.prototype.includes). */
  predicate Contains(s: string, pattern: string)
  {
    exists i: nat | i <= |s| :: OccursAt(s, pattern, i)
  }

  /** The textual test for a row-limiting clause: `limit` in any letter case. */
  predicate MentionsLimit(s: string)
  {
    Contains(ToLower(s), "limit")
  }

  /** The clause appended when the query has none. */
  const LIMIT_CLAUSE := " LIMIT 25;"

  /** A query followed by the appended clause always mentions `limit`. */
  lemma CappedMentionsLimit(s: string)
    ensures MentionsLimit(s + LIMIT_CLAUSE)
  {
    var low := ToLower(s + LIMIT_CLAUSE);
    var i := |s| + 1;
    assert low[i..i + 5] == "limit" by {
      assert low[i] == LowerChar('L') == 'l';
      assert low[i + 1] == LowerChar('I') == 'i';
      assert low[i + 2] == LowerChar('M') == 'm';
      assert low[i + 3] == LowerChar('I') == 'i';
      assert low[i + 4] == LowerChar('T') == 't';
    }
    assert OccursAt(low, "limit", i);
  }

  /** The SQL handed to the engine for `query`: the stripped query, with the
      row cap appended exactly when it does not mention `limit`. Either way
      the statement sent mentions `limit`. */
  function LimitedQuery(query: string): (sql: string)
    ensures MentionsLimit(sql)
    ensures StripTerminator(query) <= sql
    ensures sql == StripTerminator(query) <==> MentionsLimit(StripTerminator(query))
    ensures sql != StripTerminator(query) ==> sql == StripTerminator(query) + LIMIT_CLAUSE
  {
    var stripped := StripTerminator(query);
    CappedMentionsLimit(stripped);
    if MentionsLimit(stripped) then stripped else stripped + LIMIT_CLAUSE
  }
}
