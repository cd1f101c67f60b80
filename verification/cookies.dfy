/** The browser's `document.cookie` string and the session-cookie presence
    test run at startup: split the string on `"; "` and look for a row that
    begins with `jwt=`. */
module Cookies {
  import opened Wrappers

  const Separator: string := "; "
  const SessionPrefix: string := "jwt="

  predicate StartsWith(s: string, prefix: string)
  {
    |prefix| <= |s| && s[..|prefix|] == prefix
  }

  /** A row of the session cookie: `String.prototype.startsWith("jwt=")`. */
  predicate IsSessionRow(row: string)
  {
    StartsWith(row, SessionPrefix)
  }

  /** The separator `"; "` begins at index `i` of `s`. */
  predicate SeparatorAt(s: string, i: int)
  {
    0 <= i && i + 1 < |s| && s[i] == ';' && s[i + 1] == ' '
  }

  predicate HasSeparator(s: string)
  {
    exists i :: 0 <= i < |s| && SeparatorAt(s, i)
  }

  /** `rows.join("; ")`. */
  function Join(rows: seq<string>): string
  {
    if |rows| == 0 then ""
    else if |rows| == 1 then rows[0]
    else rows[0] + Separator + Join(rows[1..])
  }

  /** `s.split("; ")`: the left-to-right scan of JavaScript's split, one
      character or one separator at a time. The empty string splits into one
      empty row. Joining the rows gives back the string. */
  function Split(s: string): (rows: seq<string>)
    ensures |rows| >= 1
    ensures Join(rows) == s
    decreases |s|
  {
    if |s| == 0 then [""]
    else if SeparatorAt(s, 0) then
      var rest := Split(s[2..]);
      JoinEmptyHead(rest);
      assert s == Separator + s[2..];
      [""] + rest
    else
      var rest := Split(s[1..]);
      JoinPrepend(s[0], rest);
      assert s == [s[0]] + s[1..];
      [[s[0]] + rest[0]] + rest[1..]
  }

  /** An empty first row contributes only its separator. */
  lemma JoinEmptyHead(rest: seq<string>)
    requires |rest| >= 1
    ensures Join([""] + rest) == Separator + Join(rest)
  {
    var rows := [""] + rest;
    assert rows[0] == "" && rows[1..] == rest;
    assert Join(rows) == "" + Separator + Join(rest);
    assert "" + Separator + Join(rest) == Separator + Join(rest);
  }

  /** A character put in front of the first row is put in front of the
      joined string. */
  lemma JoinPrepend(c: char, rest: seq<string>)
    requires |rest| >= 1
    ensures Join([[c] + rest[0]] + rest[1..]) == [c] + Join(rest)
  {
    var rows := [[c] + rest[0]] + rest[1..];
    if |rest| == 1 {
      assert rows == [[c] + rest[0]];
    } else {
      assert rows[0] == [c] + rest[0] && rows[1..] == rest[1..];
      JoinAssociates(c, rest[0], Join(rest[1..]));
    }
  }

  lemma JoinAssociates(c: char, head: string, tail: string)
    ensures ([c] + head) + Separator + tail == [c] + (head + Separator + tail)
  {
  }

  /** `rows.find(row => row.startsWith("jwt="))`: the first session row. */
  function FindSessionRow(rows: seq<string>): (token: Option<string>)
    ensures token.None? <==> forall k :: 0 <= k < |rows| ==> !IsSessionRow(rows[k])
    ensures token.Some? ==> IsSessionRow(token.value)
    ensures token.Some? ==> exists k :: 0 <= k < |rows| && rows[k] == token.value
                                        && forall m :: 0 <= m < k ==> !IsSessionRow(rows[m])
  {
    if |rows| == 0 then None
    else if IsSessionRow(rows[0]) then Some(rows[0])
    else
      var token := FindSessionRow(rows[1..]);
      if token.Some? then
        ghost var k :| 0 <= k < |rows[1..]| && rows[1..][k] == token.value
                       && forall m :: 0 <= m < k ==> !IsSessionRow(rows[1..][m]);
        assert rows[k + 1] == token.value;
        assert forall m :: 0 <= m < k + 1 ==> !IsSessionRow(rows[m]) by {
          forall m | 0 < m < k + 1
            ensures !IsSessionRow(rows[m])
          {
            assert rows[m] == rows[1..][m - 1];
          }
        }
        token
      else
        assert forall k :: 0 < k < |rows| ==> rows[k] == rows[1..][k - 1];
        token
  }

  /** The startup test: the row `find` returns, tested for truthiness. A
      found row starts with `jwt=`, so it is never empty: the test accepts
      exactly when some row is a session row. */
  predicate HasSessionCookie(cookie: string)
    ensures HasSessionCookie(cookie) <==>
              exists k :: 0 <= k < |Split(cookie)| && IsSessionRow(Split(cookie)[k])
  {
    FoundRowTruthy(Split(cookie));
    assert (exists k :: 0 <= k < |Split(cookie)| && IsSessionRow(Split(cookie)[k])) ==>
             FindSessionRow(Split(cookie)).Some? && FindSessionRow(Split(cookie)).value != "";
    assert FindSessionRow(Split(cookie)).Some? && FindSessionRow(Split(cookie)).value != "" ==>
             (exists k :: 0 <= k < |Split(cookie)| && IsSessionRow(Split(cookie)[k]));
    FindSessionRow(Split(cookie)).Some? && FindSessionRow(Split(cookie)).value != ""
  }

  /** The row `find` returns is truthy exactly when some row is a session
      row. */
  lemma FoundRowTruthy(rows: seq<string>)
    ensures FindSessionRow(rows).Some? && FindSessionRow(rows).value != "" <==>
              exists k :: 0 <= k < |rows| && IsSessionRow(rows[k])
  {
    var token := FindSessionRow(rows);
    if token.Some? {
      assert |token.value| >= |SessionPrefix|;
      var k :| 0 <= k < |rows| && rows[k] == token.value;
      assert IsSessionRow(rows[k]);
    }
  }

  /** "; jwt=" begins at index `i`: a separator followed by a session row. */
  predicate MarkerAt(s: string, i: int)
  {
    SeparatorAt(s, i) && IsSessionRow(s[i + 2..])
  }

  // ---------------------------------------------------------------------------
  // Split and Join

  /** The first row of a split is a separator-free prefix of the string; it is
      the whole string, or a separator follows it and the remaining rows are
      the split of what comes after. */
  lemma {:induction false} SplitFirst(s: string)
    ensures var h := Split(s)[0];
      && |h| <= |s| && s[..|h|] == h
      && !HasSeparator(h)
      && (|Split(s)| == 1 ==> h == s)
      && (|Split(s)| > 1 ==>
            && SeparatorAt(s, |h|)
            && Split(s)[1..] == Split(s[|h| + 2..]))
    decreases |s|
  {
    if |s| == 0 {
      assert !SeparatorAt("", 0);
    } else if SeparatorAt(s, 0) {
      assert Split(s)[1..] == Split(s[2..]);
      assert !SeparatorAt(Split(s)[0], 0);
    } else {
      var rest := Split(s[1..]);
      SplitFirst(s[1..]);
      var h := [s[0]] + rest[0];
      assert Split(s)[0] == h;
      assert s[..|h|] == [s[0]] + s[1..][..|rest[0]|];
      forall i
        ensures !SeparatorAt(h, i)
      {
        if i == 0 {
          if |h| > 1 {
            assert h[1] == s[1];
          }
        } else if 0 < i && i + 1 < |h| {
          assert h[i] == rest[0][i - 1] && h[i + 1] == rest[0][i];
          assert !SeparatorAt(rest[0], i - 1);
        }
      }
      if |rest| > 1 {
        assert SeparatorAt(s[1..], |rest[0]|);
        assert s[1..][|rest[0]| + 2..] == s[|h| + 2..];
      }
    }
  }

  /** Dropping the first character cannot create a separator. */
  lemma NoSeparatorTail(e: string)
    requires |e| > 0 && !HasSeparator(e)
    ensures !HasSeparator(e[1..])
  {
    forall i | 0 <= i < |e[1..]|
      ensures !SeparatorAt(e[1..], i)
    {
      assert !SeparatorAt(e, i + 1);
    }
  }

  /** A separator-free string splits into itself. */
  lemma {:induction false} SplitNoSeparator(e: string)
    requires !HasSeparator(e)
    ensures Split(e) == [e]
    decreases |e|
  {
    if |e| > 0 {
      assert !SeparatorAt(e, 0);
      NoSeparatorTail(e);
      SplitNoSeparator(e[1..]);
      assert [e[0]] + e[1..] == e;
    }
  }

  /** Where no separator starts, the first character joins the first row of
      the rest. */
  lemma SplitStep(s: string)
    requires |s| > 0 && !SeparatorAt(s, 0)
    ensures Split(s) == [[s[0]] + Split(s[1..])[0]] + Split(s[1..])[1..]
  {
  }

  /** A separator-free row followed by a separator splits off as one row. */
  lemma {:induction false} SplitCons(e: string, t: string)
    requires !HasSeparator(e)
    ensures Split(e + Separator + t) == [e] + Split(t)
    decreases |e|
  {
    var s := e + Separator + t;
    if |e| == 0 {
      assert s == Separator + t;
      assert s[2..] == t;
    } else {
      assert s[0] == e[0];
      assert s[1] == if |e| > 1 then e[1] else ';';
      assert |e| > 1 ==> !SeparatorAt(e, 0);
      SplitStep(s);
      NoSeparatorTail(e);
      assert s[1..] == e[1..] + Separator + t;
      SplitCons(e[1..], t);
      assert [s[0]] + e[1..] == e;
    }
  }

  /** Rows without separators survive a join and a split unchanged. */
  lemma {:induction false} SplitJoin(rows: seq<string>)
    requires |rows| >= 1
    requires forall k :: 0 <= k < |rows| ==> !HasSeparator(rows[k])
    ensures Split(Join(rows)) == rows
    decreases |rows|
  {
    if |rows| == 1 {
      SplitNoSeparator(rows[0]);
    } else {
      SplitJoin(rows[1..]);
      SplitCons(rows[0], Join(rows[1..]));
      assert rows == [rows[0]] + rows[1..];
    }
  }

  // ---------------------------------------------------------------------------
  // The presence test

  /** The session row test on a row that a separator ends. */
  lemma HeadRow(h: string, t: string)
    ensures IsSessionRow(h + Separator + t) <==> IsSessionRow(h)
  {
    var s := h + Separator + t;
    if |h| >= 4 {
      assert s[..4] == h[..4];
    } else {
      assert s[|h|] == ';';
      assert SessionPrefix[|h|] != ';';
      assert |s| >= 4 ==> s[..4][|h|] == s[|h|];
    }
  }

  /** A marker in `h + "; " + t` with `h` separator-free sits on the joining
      separator or lies inside `t`. */
  lemma MarkerSplit(h: string, t: string)
    requires !HasSeparator(h)
    ensures (exists i :: MarkerAt(h + Separator + t, i)) <==>
              IsSessionRow(t) || exists i :: MarkerAt(t, i)
  {
    var s := h + Separator + t;
    var n := |h|;
    assert s[n + 2..] == t;
    assert SeparatorAt(s, n);
    forall i | 0 <= i < n + 2 && i != n
      ensures !SeparatorAt(s, i)
    {
      if i + 1 < n {
        assert s[i] == h[i] && s[i + 1] == h[i + 1];
        assert !SeparatorAt(h, i);
      } else if i == n - 1 {
        assert s[i + 1] == ';';
      } else {
        assert s[i] == ' ';
      }
    }
    forall i | MarkerAt(s, i)
      ensures IsSessionRow(t) || MarkerAt(t, i - n - 2)
    {
      if i != n {
        assert s[i] == t[i - n - 2] && s[i + 1] == t[i - n - 1];
        assert s[i + 2..] == t[i - n..];
      }
    }
    forall i | MarkerAt(t, i)
      ensures MarkerAt(s, i + n + 2)
    {
      assert s[i + n + 2] == t[i] && s[i + n + 3] == t[i + 1];
      assert s[i + n + 2 + 2..] == t[i + 2..];
    }
    if IsSessionRow(t) {
      assert MarkerAt(s, n);
    }
    if i :| MarkerAt(t, i) {
      assert MarkerAt(s, i + n + 2);
    }
  }

  /** The presence test scans the raw string: it accepts exactly when the
      cookie string begins with `jwt=` or contains `"; jwt="`. */
  lemma {:induction false} SessionCookieScan(cookie: string)
    ensures HasSessionCookie(cookie) <==>
              IsSessionRow(cookie) || exists i :: MarkerAt(cookie, i)
    decreases |cookie|
  {
    SplitFirst(cookie);
    var rows := Split(cookie);
    var h := rows[0];
    if |rows| == 1 {
      assert forall i :: !MarkerAt(cookie, i);
    } else {
      var t := cookie[|h| + 2..];
      assert cookie == h + Separator + t;
      SessionCookieScan(t);
      HeadRow(h, t);
      MarkerSplit(h, t);
      assert rows == [h] + Split(t);
      assert (exists k :: 0 <= k < |rows| && IsSessionRow(rows[k])) <==>
               IsSessionRow(h) || exists k :: 0 <= k < |Split(t)| && IsSessionRow(Split(t)[k]) by {
        forall k | 0 < k < |rows|
          ensures rows[k] == Split(t)[k - 1]
        {
        }
      }
    }
  }

  /** A bare `jwt=` row counts: the value may be empty. */
  lemma EmptyValueCounts()
    ensures HasSessionCookie("jwt=")
  {
    SessionCookieScan("jwt=");
  }

  /** A session row after a proper separator counts. */
  lemma LaterRowCounts()
    ensures HasSessionCookie("a=1; jwt=2")
  {
    var s := "a=1; jwt=2";
    assert s[5..] == "jwt=2";
    assert MarkerAt(s, 3);
    SessionCookieScan(s);
  }

  /** A cookie whose name merely ends in `jwt` does not count. */
  lemma LongerNameRejected()
    ensures !HasSessionCookie("xjwt=1")
  {
  }

  /** A `;` without the following space is not a separator. */
  lemma MissingSpaceRejected()
    ensures !HasSessionCookie("a=1;jwt=2")
  {
    var s := "a=1;jwt=2";
    forall i
      ensures !MarkerAt(s, i)
    {
      if 0 <= i < |s| {
        assert i == 0 || i == 1 || i == 2 || i == 3 || i == 4 || i == 5 || i == 6
            || i == 7 || i == 8;
      }
    }
    assert s[..4] != SessionPrefix by {
      assert s[0] == 'a';
    }
    SessionCookieScan(s);
  }

  /** For a cookie string built from separator-free `name=value` rows, the
      test accepts exactly when some row is a session row. */
  lemma JarHasSession(jar: seq<string>)
    requires forall k :: 0 <= k < |jar| ==> !HasSeparator(jar[k])
    ensures HasSessionCookie(Join(jar)) <==> exists k :: 0 <= k < |jar| && IsSessionRow(jar[k])
  {
    if |jar| == 0 {
      assert Split("") == [""];
    } else {
      SplitJoin(jar);
    }
  }
}
