/**
 * test_db.py and tests/test_db.py (identical copies): `test_connection` turns the SQLAlchemy URL
 * of the environment into the key/value string the ODBC driver wants, using only `replace`,
 * `split` and indexing. The connection itself and the prints are not part of this model.
 */
module OdbcConversion {
  import opened Common
  import opened PyStr

  /** The SQLAlchemy dialect prefix the conversion strips. */
  const Scheme: string := "mssql+pyodbc://"

  /**
   * How the conversion ends: no connection string configured (the early return), an IndexError
   * raised by one of the indexings (caught and printed; nothing connects), or the ODBC string.
   */
  datatype Conversion = NotConfigured | IndexError | Converted(odbc: string)

  /** The fixed first and last fields of the output. */
  const Driver: string := "DRIVER={ODBC Driver 17 for SQL Server}"
  const Trust: string := "TrustServerCertificate=yes"

  /** The f-string of the source: four fields between fixed keys, with literal braces. */
  function Odbc(server: string, database: string, uid: string, pwd: string): string {
    Driver + ";" + ("SERVER=" + server) + ";" + ("DATABASE=" + database) + ";" + ("UID=" + uid) + ";" +
      ("PWD=" + pwd) + ";" + Trust + ";"
  }

  /** `connection_string.replace('mssql+pyodbc://', '').split('?', 1)[0]`: the text the parse looks at. */
  function Stripped(s: string): string {
    SplitMax1(Replace(s, Scheme, ""), '?')[0]
  }

  /** The parse of the stripped text: the indexings in the order Python evaluates them. */
  function Parse(t: string): Conversion {
    var authParts := Split(t, '@');
    var creds := Split(authParts[0], ':');
    if |authParts| < 2 then IndexError
    else
      var serverDb := Split(authParts[1], '/');
      if |serverDb| < 2 || |creds| < 2 then IndexError
      else Converted(Odbc(serverDb[0], serverDb[1], creds[0], creds[1]))
  }

  /** `test_connection` up to the connect call; `cs` is `os.getenv`, None when the variable is unset. */
  function ConvertConnectionString(cs: Option<string>): (r: Conversion)
    ensures r == NotConfigured <==> cs.None? || cs.value == ""
  {
    if cs.None? || cs.value == "" then NotConfigured else Parse(Stripped(cs.value))
  }

  /** The text before the first `c` (all of `s` when there is none). */
  function Before(s: string, c: char): string {
    s[..IndexOf(s, c)]
  }

  /** The text after the first `c`. */
  function After(s: string, c: char): string
    requires c in s
  {
    s[IndexOf(s, c) + 1..]
  }

  /** The text is what comes before its first `c`, that `c`, and what comes after it. */
  lemma AroundFirst(s: string, c: char)
    requires c in s
    ensures s == Before(s, c) + [c] + After(s, c)
  {
    var k := IndexOf(s, c);
    assert s == s[..k] + [c] + s[k + 1..];
  }

  /** The first field of a split is the text before the first separator. */
  lemma SplitFirstIsBefore(s: string, c: char)
    ensures Split(s, c)[0] == Before(s, c)
  {
    if c !in s {
      SplitNoSeparator(s, c);
      assert s[..|s|] == s;
    } else {
      AroundFirst(s, c);
      SplitFirstField(Before(s, c), After(s, c), c);
    }
  }

  /** When the separator occurs, the fields after the first are those of the text after it. */
  lemma SplitRestIsAfter(s: string, c: char)
    requires c in s
    ensures Split(s, c)[1..] == Split(After(s, c), c)
  {
    var a, b := Before(s, c), After(s, c);
    AroundFirst(s, c);
    SplitFirstField(a, b, c);
    assert ([a] + Split(b, c))[1..] == Split(b, c);
  }

  /**
   * There is a second field exactly when the separator occurs, and it is the text between the
   * first and second separator.
   */
  lemma FirstTwoFields(s: string, c: char)
    ensures |Split(s, c)| >= 2 <==> c in s
    ensures Split(s, c)[0] == Before(s, c)
    ensures c in s ==> Split(s, c)[1] == Before(After(s, c), c)
  {
    SplitHasSecondField(s, c);
    SplitFirstIsBefore(s, c);
    if c in s {
      SplitRestIsAfter(s, c);
      SplitFirstIsBefore(After(s, c), c);
      assert Split(s, c)[1] == Split(s, c)[1..][0];
    }
  }

  /**
   * UID and PWD are the text before the first `:` and between the first and second `:` of the
   * part before the first `@`; SERVER and DATABASE are the text before the first `/` and between
   * the first and second `/` of the part between the first and second `@`. The parse fails with
   * IndexError exactly when one of the three separators is missing.
   */
  lemma ParseFields(t: string)
    ensures Parse(t).IndexError? <==>
      '@' !in t || ':' !in Before(t, '@') || '/' !in Before(After(t, '@'), '@')
    ensures Parse(t).Converted? ==>
      var auth, host := Before(t, '@'), Before(After(t, '@'), '@');
      Parse(t).odbc == Odbc(
        Before(host, '/'), Before(After(host, '/'), '/'),
        Before(auth, ':'), Before(After(auth, ':'), ':'))
  {
    FirstTwoFields(t, '@');
    FirstTwoFields(Before(t, '@'), ':');
    if '@' in t {
      FirstTwoFields(Before(After(t, '@'), '@'), '/');
    }
  }

  /** A prefix without the separator does not move the split with `maxsplit=1`. */
  lemma SplitMax1Prefix(a: string, b: string, c: char)
    requires c !in a
    ensures SplitMax1(a + [c] + b, c)[0] == a
  {
    SplitMax1FirstField(a + [c] + b, c);
    SplitFirstField(a, b, c);
  }

  /** No occurrence straddles a character the pattern does not contain. */
  lemma ReplaceAroundChar(a: string, c: char, q: string, pat: string, sub: string)
    requires pat != [] && c !in pat
    ensures Replace(a + [c] + q, pat, sub) == Replace(a, pat, sub) + [c] + Replace(q, pat, sub)
  {
    var b := [c] + q;
    calc {
      Replace(a + [c] + q, pat, sub);
      { assert a + [c] + q == a + b; }
      Replace(a + b, pat, sub);
      { ReplaceBeforeChar(a, b, pat, sub); }
      Replace(a, pat, sub) + Replace(b, pat, sub);
      { ReplaceAtChar(c, q, pat, sub); }
      Replace(a, pat, sub) + ([c] + Replace(q, pat, sub));
    }
  }

  /** Replacing brings in no character that is in neither the text nor the replacement. */
  lemma {:induction false} ReplaceKeepsOutChar(a: string, c: char, pat: string, sub: string)
    requires pat != [] && c !in a && c !in sub
    ensures c !in Replace(a, pat, sub)
    decreases |a|
  {
    if OccursAt(a, pat, 0) {
      assert c !in a[|pat|..];
      ReplaceKeepsOutChar(a[|pat|..], c, pat, sub);
    } else if a != [] {
      assert c !in a[1..];
      ReplaceKeepsOutChar(a[1..], c, pat, sub);
    }
  }

  /**
   * A pattern whose first character does not recur in it, placed after a text `a` that lacks the
   * pattern's last character, is found where it was put: no earlier occurrence overlaps it.
   */
  lemma ReplaceInner(a: string, b: string, pat: string, sub: string)
    requires |pat| >= 2 && pat[0] !in pat[1..] && pat[|pat| - 1] !in a
    ensures Replace(a + pat + b, pat, sub) == a + sub + Replace(b, pat, sub)
  {
    var s := a + pat + b;
    var n := |pat|;
    forall i | 0 <= i < |a| ensures !OccursAt(a + (pat + b), pat, i) {
      assert s == a + (pat + b);
      if i + n <= |a| {
        assert s[i + n - 1] == a[i + n - 1];
        assert s[i + n - 1] != pat[n - 1];
        assert s[i..i + n][n - 1] == s[i + n - 1];
      } else {
        assert s[|a|] == pat[0];
        assert pat[|a| - i] == pat[1..][|a| - i - 1];
        assert pat[|a| - i] != pat[0];
        assert s[i..i + n][|a| - i] == s[|a|];
      }
    }
    assert s == a + (pat + b);
    ReplaceKeepsPrefix(a, pat + b, pat, sub);
    ReplaceLeading(pat, b, sub);
  }

  /** Everything from the first `?` on is dropped before the parse. */
  lemma StrippedDropsQuery(a: string, q: string)
    requires '?' !in a
    ensures Stripped(a + "?" + q) == Stripped(a)
  {
    ReplaceAroundChar(a, '?', q, Scheme, "");
    ReplaceKeepsOutChar(a, '?', Scheme, "");
    var ra := Replace(a, Scheme, "");
    SplitMax1Prefix(ra, Replace(q, Scheme, ""), '?');
  }

  /** A leading prefix is removed ... */
  lemma StrippedDropsLeadingScheme(s: string)
    ensures Stripped(Scheme + s) == Stripped(s)
  {
    ReplaceLeading(Scheme, s, "");
    assert "" + Replace(s, Scheme, "") == Replace(s, Scheme, "");
  }

  /** ... and so is one further in, as long as the text before it has no `/`. */
  lemma ReplaceDropsInnerScheme(a: string, b: string)
    requires '/' !in a
    ensures Replace(a + Scheme + b, Scheme, "") == a + Replace(b, Scheme, "")
  {
    assert Scheme[0] !in Scheme[1..] by {
      assert Scheme[1..] == "ssql+pyodbc://";
    }
    assert Scheme[|Scheme| - 1] == '/';
    ReplaceInner(a, b, Scheme, "");
    assert a + "" == a;
  }

  /**
   * In `u:y` followed by nothing or by a character the pattern lacks, where the one `:` is not
   * followed by `/`, no occurrence of a pattern containing `:/` starts before the tail.
   */
  lemma PatternAbsent(u: string, y: string, tail: string, pat: string, j: nat)
    requires ':' !in u && ':' !in y && y != [] && y[0] != '/'
    requires j + 1 < |pat| && pat[j] == ':' && pat[j + 1] == '/'
    requires tail == [] || tail[0] !in pat
    ensures forall i :: 0 <= i < |u| + 1 + |y| ==> !OccursAt(u + ":" + y + tail, pat, i)
  {
    var x := u + ":" + y;
    var s := x + tail;
    var n := |pat|;
    assert s == u + ":" + y + tail;
    forall i | 0 <= i < |x| ensures !OccursAt(s, pat, i) {
      if i + n <= |x| {
        if i + j == |u| {
          assert s[i + j + 1] == y[0];
          assert s[i..i + n][j + 1] == s[i + j + 1];
        } else {
          if i + j < |u| {
            assert s[i + j] == u[i + j];
          } else {
            assert s[i + j] == y[i + j - |u| - 1];
          }
          assert s[i..i + n][j] == s[i + j];
        }
      } else if i + n <= |s| {
        assert s[|x|] == tail[0];
        assert s[i..i + n][|x| - i] == s[|x|];
      }
    }
  }

  /** The URL the conversion expects, with an optional query tail. */
  function Url(uid: string, pwd: string, server: string, database: string, query: Option<string>): string {
    Scheme + (Location(uid, pwd, server, database) + QueryTail(query))
  }

  /** `uid:pwd@server/database`. */
  function Location(uid: string, pwd: string, server: string, database: string): string {
    uid + ":" + pwd + "@" + server + "/" + database
  }

  /** Nothing, or `?` and the query. */
  function QueryTail(query: Option<string>): string {
    if query.Some? then "?" + query.value else ""
  }

  /** A component with none of the separators the conversion splits on. */
  predicate Plain(x: string) {
    ':' !in x && '@' !in x && '/' !in x && '?' !in x
  }

  /** Removing the prefix from the URL touches neither the credentials, the host nor the database. */
  lemma ReplaceInUrl(x: string, uid: string, y: string, tail: string)
    requires x == uid + ":" + y && ':' !in uid && ':' !in y && y != [] && y[0] != '/'
    requires tail == [] || tail[0] == '?'
    ensures Replace(Scheme + (x + tail), Scheme, "") == x + Replace(tail, Scheme, "")
  {
    ReplaceLeading(Scheme, x + tail, "");
    PatternAbsent(uid, y, tail, Scheme, 12);
    assert x + tail == uid + ":" + y + tail;
    ReplaceKeepsPrefix(x, tail, Scheme, "");
  }

  /** A text without `?` survives the cut at the first `?` of what follows it. */
  lemma CutAtQuery(x: string, tail: string, pat: string)
    requires '?' !in x && pat != [] && '?' !in pat
    requires tail == [] || tail[0] == '?'
    ensures SplitMax1(x + Replace(tail, pat, ""), '?')[0] == x
  {
    if tail == [] {
      assert x + Replace(tail, pat, "") == x;
    } else {
      calc {
        x + Replace(tail, pat, "");
        { assert tail == ['?'] + tail[1..]; ReplaceAtChar('?', tail[1..], pat, ""); }
        x + (['?'] + Replace(tail[1..], pat, ""));
        x + ['?'] + Replace(tail[1..], pat, "");
      }
      SplitMax1Prefix(x, Replace(tail[1..], pat, ""), '?');
    }
  }

  /** Stripping the URL leaves the credentials, host and database. */
  lemma StrippedUrl(uid: string, pwd: string, server: string, database: string, query: Option<string>)
    requires Plain(uid) && Plain(pwd) && Plain(server) && Plain(database)
    ensures Stripped(Url(uid, pwd, server, database, query)) == Location(uid, pwd, server, database)
  {
    var y := pwd + "@" + server + "/" + database;
    var x := Location(uid, pwd, server, database);
    assert x == uid + ":" + y;
    assert y[0] != '/' by {
      if pwd == "" {
        assert y[0] == '@';
      } else {
        assert y[0] == pwd[0];
      }
    }
    ReplaceInUrl(x, uid, y, QueryTail(query));
    CutAtQuery(x, QueryTail(query), Scheme);
  }

  /** Parsing separator-free components joined by their separators gives them back. */
  lemma ParsePlain(uid: string, pwd: string, server: string, database: string)
    requires Plain(uid) && Plain(pwd) && Plain(server) && Plain(database)
    ensures Parse(Location(uid, pwd, server, database)) == Converted(Odbc(server, database, uid, pwd))
  {
    assert Location(uid, pwd, server, database) == (uid + ":" + pwd) + ['@'] + (server + "/" + database);
    SplitFirstField(uid + ":" + pwd, server + "/" + database, '@');
    SplitNoSeparator(server + "/" + database, '@');
    SplitFirstField(uid, pwd, ':');
    SplitNoSeparator(pwd, ':');
    SplitFirstField(server, database, '/');
    SplitNoSeparator(database, '/');
  }

  /** Round trip: separator-free components come back out exactly, whatever the query says. */
  lemma RoundTrip(uid: string, pwd: string, server: string, database: string, query: Option<string>)
    requires Plain(uid) && Plain(pwd) && Plain(server) && Plain(database)
    ensures ConvertConnectionString(Some(Url(uid, pwd, server, database, query))) ==
      Converted(Odbc(server, database, uid, pwd))
  {
    StrippedUrl(uid, pwd, server, database, query);
    ParsePlain(uid, pwd, server, database);
  }

  /** A missing `@`: the indexing `auth_parts[1]` raises. */
  lemma MissingAt(s: string)
    requires s != "" && '@' !in Stripped(s)
    ensures ConvertConnectionString(Some(s)) == IndexError
  {
    ParseFields(Stripped(s));
  }

  /** Joining one more field appends the separator and that field. */
  lemma {:induction false} JoinSnoc(p: seq<string>, x: string, c: char)
    requires |p| >= 1
    ensures Join(p + [x], c) == Join(p, c) + [c] + x
    decreases |p|
  {
    if |p| == 1 {
      assert (p + [x])[1..] == [x];
    } else {
      assert (p + [x])[1..] == p[1..] + [x];
      JoinSnoc(p[1..], x, c);
      calc {
        Join(p + [x], c);
        p[0] + [c] + (Join(p[1..], c) + [c] + x);
        (p[0] + [c] + Join(p[1..], c)) + [c] + x;
      }
    }
  }

  /** Joining seven fields puts the separator between each pair of neighbours. */
  lemma JoinSeven(a0: string, a1: string, a2: string, a3: string, a4: string, a5: string, a6: string, c: char)
    ensures Join([a0, a1, a2, a3, a4, a5, a6], c) ==
      a0 + [c] + a1 + [c] + a2 + [c] + a3 + [c] + a4 + [c] + a5 + [c] + a6
  {
    assert [a0, a1] == [a0] + [a1];
    JoinSnoc([a0], a1, c);
    assert [a0, a1, a2] == [a0, a1] + [a2];
    JoinSnoc([a0, a1], a2, c);
    assert [a0, a1, a2, a3] == [a0, a1, a2] + [a3];
    JoinSnoc([a0, a1, a2], a3, c);
    assert [a0, a1, a2, a3, a4] == [a0, a1, a2, a3] + [a4];
    JoinSnoc([a0, a1, a2, a3], a4, c);
    assert [a0, a1, a2, a3, a4, a5] == [a0, a1, a2, a3, a4] + [a5];
    JoinSnoc([a0, a1, a2, a3, a4], a5, c);
    assert [a0, a1, a2, a3, a4, a5, a6] == [a0, a1, a2, a3, a4, a5] + [a6];
    JoinSnoc([a0, a1, a2, a3, a4, a5], a6, c);
  }

  /** The output is its seven `;`-separated fields joined together. */
  lemma OdbcIsJoin(server: string, database: string, uid: string, pwd: string)
    ensures Odbc(server, database, uid, pwd) == Join(OdbcParts(server, database, uid, pwd), ';')
  {
    JoinSeven(Driver, "SERVER=" + server, "DATABASE=" + database, "UID=" + uid, "PWD=" + pwd, Trust, "", ';');
  }

  /** The fields of the output, in order. */
  function OdbcParts(server: string, database: string, uid: string, pwd: string): seq<string> {
    [Driver, "SERVER=" + server, "DATABASE=" + database, "UID=" + uid, "PWD=" + pwd, Trust, ""]
  }

  /**
   * The layout of the output: split at `;`, it gives back the fixed driver key, the four fields
   * under their keys, the trust flag and the empty text after the closing `;`.
   */
  lemma OdbcFields(server: string, database: string, uid: string, pwd: string)
    requires ';' !in server && ';' !in database && ';' !in uid && ';' !in pwd
    ensures Split(Odbc(server, database, uid, pwd), ';') == OdbcParts(server, database, uid, pwd)
  {
    var parts := OdbcParts(server, database, uid, pwd);
    calc {
      Split(Odbc(server, database, uid, pwd), ';');
      { OdbcIsJoin(server, database, uid, pwd); }
      Split(Join(parts, ';'), ';');
      { OdbcPartsPlain(server, database, uid, pwd); SplitJoin(parts, ';'); }
      parts;
    }
  }

  /** No field of the output holds a `;` when the four values do not. */
  lemma OdbcPartsPlain(server: string, database: string, uid: string, pwd: string)
    requires ';' !in server && ';' !in database && ';' !in uid && ';' !in pwd
    ensures var parts := OdbcParts(server, database, uid, pwd);
      forall i :: 0 <= i < |parts| ==> ';' !in parts[i]
  {
    assert ';' !in Driver && ';' !in Trust;
    assert ';' !in "SERVER=" + server && ';' !in "DATABASE=" + database;
    assert ';' !in "UID=" + uid && ';' !in "PWD=" + pwd;
  }
}
