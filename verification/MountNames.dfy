/** Mount unit names from paths (src/ClusterBootstrap/deploy.py, path_to_mount_service_name), and their decoder. */
module MountNames {
  import opened Jobs

  /** Drops one leading and one trailing slash; None where indexing an empty string fails. */
  function Strip(path: string): Option<string> {
    if path == "" then None
    else
      var ret := if path[0] == '/' then path[1..] else path;
      if ret == "" then None
      else Some(if ret[|ret| - 1] == '/' then ret[..|ret| - 1] else ret)
  }

  /** Python's str.replace of a one-character string. */
  function Replace(s: string, c: char, sub: string): string {
    if s == "" then "" else (if s[0] == c then sub else [s[0]]) + Replace(s[1..], c, sub)
  }

  const DASH := "\\x2d"

  function Escape(s: string): string {
    Replace(Replace(s, '-', DASH), '/', "-")
  }

  function PathToMountServiceName(path: string): Option<string> {
    match Strip(path)
    case None => None
    case Some(s) => Some(Escape(s))
  }

  /** Reads a name back, turning "\x2d" into a dash and any other dash into a slash. */
  function Unescape(name: string): string {
    if name == "" then ""
    else if DASH <= name then "-" + Unescape(name[4..])
    else [if name[0] == '-' then '/' else name[0]] + Unescape(name[1..])
  }

  /** The escape sequence itself occurs in the text. */
  predicate HasEscape(s: string) {
    exists i | 0 <= i < |s| :: DASH <= s[i..]
  }

  lemma {:induction false} ReplaceConcat(a: string, b: string, c: char, sub: string)
    ensures Replace(a + b, c, sub) == Replace(a, c, sub) + Replace(b, c, sub)
  {
    if a == "" {
      assert a + b == b;
    } else {
      assert (a + b)[1..] == a[1..] + b;
      ReplaceConcat(a[1..], b, c, sub);
    }
  }

  function EscapedChar(c: char): string {
    if c == '-' then DASH else if c == '/' then "-" else [c]
  }

  lemma EscapeStep(s: string)
    requires s != ""
    ensures Escape(s) == EscapedChar(s[0]) + Escape(s[1..])
  {
    var head := if s[0] == '-' then DASH else [s[0]];
    ReplaceConcat(head, Replace(s[1..], '-', DASH), '/', "-");
    if s[0] == '-' {
      assert DASH[1..] == "x2d" && "x2d"[1..] == "2d" && "2d"[1..] == "d" && "d"[1..] == "";
      assert Replace("d", '/', "-") == "d";
      assert Replace("2d", '/', "-") == "2d";
      assert Replace("x2d", '/', "-") == "x2d";
      assert Replace(DASH, '/', "-") == DASH;
    } else {
      assert [s[0]][1..] == "";
    }
  }

  /** Letters and digits survive escaping: an escaped text starts with them exactly if the text does. */
  lemma {:induction false} PlainPrefix(s: string, plain: string)
    requires forall i | 0 <= i < |plain| :: plain[i] !in {'-', '/', '\\'}
    ensures plain <= Escape(s) <==> plain <= s
  {
    if plain != "" && s != "" {
      EscapeStep(s);
      PlainPrefix(s[1..], plain[1..]);
      assert s == [s[0]] + s[1..] && plain == [plain[0]] + plain[1..];
      if s[0] != '-' && s[0] != '/' {
        assert Escape(s)[1..] == Escape(s[1..]);
        assert plain <= Escape(s) <==> plain[0] == s[0] && plain[1..] <= Escape(s[1..]);
        assert plain <= s <==> plain[0] == s[0] && plain[1..] <= s[1..];
      } else {
        assert Escape(s)[0] != plain[0];
      }
    }
  }

  lemma HasEscapeStep(s: string)
    requires s != ""
    ensures HasEscape(s) <==> DASH <= s || HasEscape(s[1..])
  {
    if HasEscape(s) && !(DASH <= s) {
      var i :| 0 <= i < |s| && DASH <= s[i..];
      assert s[1..][i - 1..] == s[i..];
    }
    if HasEscape(s[1..]) {
      var i :| 0 <= i < |s[1..]| && DASH <= s[1..][i..];
      assert s[i + 1..] == s[1..][i..];
    }
    if DASH <= s { assert s[0..] == s; }
  }

  /** The decoder undoes the escaping of a text exactly when the text does not contain the escape sequence. */
  lemma {:induction false} UnescapeExactly(s: string)
    ensures Unescape(Escape(s)) == s <==> !HasEscape(s)
  {
    if s == "" {
    } else {
      EscapeStep(s);
      HasEscapeStep(s);
      UnescapeExactly(s[1..]);
      var tail := Escape(s[1..]);
      assert s == [s[0]] + s[1..];
      if s[0] == '-' {
        assert Escape(s) == DASH + tail && Escape(s)[4..] == tail && DASH <= Escape(s);
        assert !(DASH <= s);
      } else if s[0] == '/' {
        assert Escape(s) == "-" + tail && Escape(s)[1..] == tail && Escape(s)[0] == '-';
        assert !(DASH <= s);
      } else {
        assert Escape(s) == [s[0]] + tail && Escape(s)[1..] == tail;
        PlainPrefix(s[1..], "x2d");
        assert DASH == ['\\'] + "x2d";
        assert DASH <= Escape(s) <==> s[0] == '\\' && "x2d" <= tail;
        assert DASH <= s <==> s[0] == '\\' && "x2d" <= s[1..];
        if DASH <= Escape(s) {
          assert Unescape(Escape(s))[0] == '-' != s[0];
        }
      }
    }
  }

  /** Stripping fails on the empty path and on a lone slash; otherwise it takes off one slash at either end if there is
      one, and nothing else. */
  lemma StripExactly(p: string)
    ensures Strip(p).None? <==> p == "" || p == "/"
    ensures Strip(p).Some? ==>
              p == (if p[0] == '/' then "/" else "") + Strip(p).value + (if p[|p| - 1] == '/' then "/" else "")
  {
    if Strip(p).Some? {
      var ret := if p[0] == '/' then p[1..] else p;
      assert ret == Strip(p).value + if ret[|ret| - 1] == '/' then "/" else "";
      assert p == (if p[0] == '/' then "/" else "") + ret;
    }
  }

  /** The name of a stripped path, character by character. */
  function Spelled(s: string): string {
    if s == "" then ""
    else (if s[0] == '-' then "\\x2d" else if s[0] == '/' then "-" else [s[0]]) + Spelled(s[1..])
  }

  lemma {:induction false} EscapeSpells(s: string)
    ensures Escape(s) == Spelled(s)
  {
    if s == "" {
    } else {
      EscapeStep(s);
      EscapeSpells(s[1..]);
    }
  }

  /** A path has a name unless it is empty or a lone slash; the name spells the path without its outer slashes. */
  lemma NameExactly(p: string)
    ensures PathToMountServiceName(p).None? <==> p == "" || p == "/"
    ensures PathToMountServiceName(p).Some? ==> PathToMountServiceName(p).value == Spelled(Strip(p).value)
  {
    StripExactly(p);
    if Strip(p).Some? { EscapeSpells(Strip(p).value); }
  }

  /** Different paths, up to one leading and one trailing slash, get different names if neither contains the
      escape sequence; paths free of backslashes never do. */
  lemma NamesDistinct(p: string, q: string)
    requires PathToMountServiceName(p).Some? && PathToMountServiceName(p) == PathToMountServiceName(q)
    requires !HasEscape(Strip(p).value) && !HasEscape(Strip(q).value)
    ensures Strip(p) == Strip(q)
  {
    UnescapeExactly(Strip(p).value);
    UnescapeExactly(Strip(q).value);
  }

  lemma BackslashFree(s: string)
    requires '\\' !in s
    ensures !HasEscape(s)
  {
    forall i | 0 <= i < |s| ensures !(DASH <= s[i..]) {
      assert s[i..][0] == s[i] && DASH[0] == '\\';
    }
  }

  /** Any path with the escape sequence shares its name with another path: the one its name decodes to. */
  lemma EscapeCollides(p: string) returns (q: string)
    requires Strip(p).Some? && HasEscape(Strip(p).value)
    ensures PathToMountServiceName(q) == PathToMountServiceName(p) && Strip(q).Some? && Strip(q) != Strip(p)
  {
    var s := Strip(p).value;
    UnescapeExactly(s);
    EscapeUnescape(s);
    q := "/" + Unescape(Escape(s)) + "/";
    assert q[1..] == Unescape(Escape(s)) + "/";
    assert q[1..][..|q| - 2] == Unescape(Escape(s));
  }

  lemma {:induction false} EscapeUnescape(s: string)
    ensures Escape(Unescape(Escape(s))) == Escape(s)
    decreases |s|
  {
    if s == "" {
    } else {
      EscapeStep(s);
      var tail := Escape(s[1..]);
      if s[0] == '-' {
        assert Escape(s) == DASH + tail && Escape(s)[4..] == tail && DASH <= Escape(s);
        EscapeUnescape(s[1..]);
        EscapeStep("-" + Unescape(tail));
        assert ("-" + Unescape(tail))[1..] == Unescape(tail);
      } else if s[0] == '/' {
        assert Escape(s) == "-" + tail && Escape(s)[1..] == tail && Escape(s)[0] == '-';
        EscapeUnescape(s[1..]);
        EscapeStep("/" + Unescape(tail));
        assert ("/" + Unescape(tail))[1..] == Unescape(tail);
      } else {
        assert Escape(s) == [s[0]] + tail && Escape(s)[1..] == tail;
        if DASH <= Escape(s) {
          PlainPrefix(s[1..], "x2d");
          assert "x2d" <= tail by { assert Escape(s)[1..4] == DASH[1..4]; }
          DropPlain(s);
          EscapeUnescape(s[4..]);
          var rest := Escape(s[4..]);
          assert Escape(s)[4..] == rest;
          EscapeStep("-" + Unescape(rest));
          assert ("-" + Unescape(rest))[1..] == Unescape(rest);
        } else {
          EscapeUnescape(s[1..]);
          EscapeStep([s[0]] + Unescape(tail));
          assert ([s[0]] + Unescape(tail))[1..] == Unescape(tail);
        }
      }
    }
  }

  lemma DropPlain(s: string)
    requires |s| >= 1 && s[0] == '\\' && "x2d" <= s[1..]
    ensures |s| >= 4 && Escape(s) == DASH + Escape(s[4..])
  {
    assert |s[1..]| >= 3 && s[1..][0] == 'x' && s[1..][1] == '2' && s[1..][2] == 'd';
    EscapeStep(s);
    EscapeStep(s[1..]);
    EscapeStep(s[2..]);
    EscapeStep(s[3..]);
    assert s[1..][1..] == s[2..] && s[2..][1..] == s[3..] && s[3..][1..] == s[4..];
  }
}
