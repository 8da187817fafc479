/** The role decision of `handleLogin` in frontend/src/App.tsx: the user name is
    trimmed and lower-cased, the password compared as typed. */
module Login {
  import opened Wrappers

  datatype Role = Admin | User

  /** The characters `String.prototype.trim` strips: white space and line
      terminators as ECMAScript defines them. */
  predicate IsSpace(c: char)
  {
    ('\U{9}' <= c <= '\U{D}') || c == ' ' || c == '\U{A0}' || c == '\U{1680}' ||
    ('\U{2000}' <= c <= '\U{200A}') || c == '\U{2028}' || c == '\U{2029}' ||
    c == '\U{202F}' || c == '\U{205F}' || c == '\U{3000}' || c == '\U{FEFF}'
  }

  predicate AllSpace(s: string)
  {
    forall i :: 0 <= i < |s| ==> IsSpace(s[i])
  }

  /** `s` without its leading white space. */
  function TrimStart(s: string): (r: string)
    ensures |r| <= |s| && r == s[|s| - |r|..]
    ensures forall i :: 0 <= i < |s| - |r| ==> IsSpace(s[i])
    ensures r == [] || !IsSpace(r[0])
    decreases |s|
  {
    if s != [] && IsSpace(s[0]) then TrimStart(s[1..]) else s
  }

  /** `s` without its trailing white space. */
  function TrimEnd(s: string): (r: string)
    ensures |r| <= |s| && r == s[..|r|]
    ensures forall i :: |r| <= i < |s| ==> IsSpace(s[i])
    ensures r == [] || !IsSpace(r[|r| - 1])
    decreases |s|
  {
    if s != [] && IsSpace(s[|s| - 1]) then TrimEnd(s[..|s| - 1]) else s
  }

  /** `trim()`. */
  function Trim(s: string): string
  {
    TrimEnd(TrimStart(s))
  }

  function LowerChar(c: char): char
  {
    if 'A' <= c <= 'Z' then (c as int - 'A' as int + 'a' as int) as char else c
  }

  /** Lower-casing neither makes nor unmakes white space. */
  lemma LowerCharSpace(c: char)
    ensures IsSpace(LowerChar(c)) == IsSpace(c)
  {
  }

  /** `toLowerCase()` on the Latin capitals. */
  function Lower(s: string): (r: string)
    ensures |r| == |s|
  {
    seq(|s|, i requires 0 <= i < |s| => LowerChar(s[i]))
  }

  /** The user name as compared: trimmed, then lower-cased. */
  function Normalize(user: string): string
  {
    Lower(Trim(user))
  }

  /** `handleLogin`'s choice of role; `None` is the login error. */
  function RoleFor(user: string, pass: string): (r: Option<Role>)
    ensures r == Some(User) ==> pass == "14133*"
    ensures r == Some(Admin) ==> pass == "JMLmaisforte26"
    ensures r.Some? ==> Normalize(user) == "diretoria" || Normalize(user) == "financeiro"
  {
    var normalized := Normalize(user);
    if normalized == "diretoria" && pass == "14133*" then Some(User)
    else if normalized == "financeiro" && pass == "JMLmaisforte26" then Some(Admin)
    else None
  }

  // ---------------------------------------------------------------- trimming

  lemma {:induction false} TrimStartSkip(pre: string, x: string)
    requires AllSpace(pre)
    ensures TrimStart(pre + x) == TrimStart(x)
    decreases |pre|
  {
    if pre != [] {
      assert (pre + x)[1..] == pre[1..] + x;
      TrimStartSkip(pre[1..], x);
    } else {
      assert pre + x == x;
    }
  }

  lemma {:induction false} TrimEndSkip(y: string, post: string)
    requires AllSpace(post)
    ensures TrimEnd(y + post) == TrimEnd(y)
    decreases |post|
  {
    if post != [] {
      assert (y + post)[..|y + post| - 1] == y + post[..|post| - 1];
      TrimEndSkip(y, post[..|post| - 1]);
    } else {
      assert y + post == y;
    }
  }

  lemma {:induction false} TrimStartAppend(x: string, post: string)
    ensures TrimStart(x) == [] ==> TrimStart(x + post) == TrimStart(post)
    ensures TrimStart(x) != [] ==> TrimStart(x + post) == TrimStart(x) + post
    decreases |x|
  {
    if x == [] {
      assert x + post == post;
    } else {
      var xp := x + post;
      assert xp[0] == x[0];
      if IsSpace(x[0]) {
        assert xp[1..] == x[1..] + post;
        assert TrimStart(xp) == TrimStart(x[1..] + post);
        TrimStartAppend(x[1..], post);
      } else {
        assert TrimStart(xp) == xp && TrimStart(x) == x;
      }
    }
  }

  /** Padding the user name with white space on either side changes nothing. */
  lemma TrimIgnoresPadding(pre: string, u: string, post: string)
    requires AllSpace(pre) && AllSpace(post)
    ensures Trim(pre + u + post) == Trim(u)
  {
    assert pre + u + post == pre + (u + post);
    TrimStartSkip(pre, u + post);
    TrimStartAppend(u, post);
    if TrimStart(u) != [] {
      TrimEndSkip(TrimStart(u), post);
    } else {
      assert TrimStart(post) == [];
    }
  }

  /** The trimmed string neither starts nor ends with white space. */
  lemma TrimEnds(s: string)
    ensures Trim(s) == [] || (!IsSpace(Trim(s)[0]) && !IsSpace(Trim(s)[|Trim(s)| - 1]))
  {
    var a := TrimStart(s);
    var t := TrimEnd(a);
    if t != [] {
      assert t[0] == a[0];
    }
  }

  // ---------------------------------------------------------------- case

  lemma LowerIdempotent(s: string)
    ensures Lower(Lower(s)) == Lower(s)
  {
  }

  lemma {:induction false} TrimStartLower(s: string)
    ensures TrimStart(Lower(s)) == Lower(TrimStart(s))
    decreases |s|
  {
    if s != [] {
      LowerCharSpace(s[0]);
      assert Lower(s)[0] == LowerChar(s[0]);
      assert Lower(s)[1..] == Lower(s[1..]);
      TrimStartLower(s[1..]);
    }
  }

  lemma {:induction false} TrimEndLower(s: string)
    ensures TrimEnd(Lower(s)) == Lower(TrimEnd(s))
    decreases |s|
  {
    if s != [] {
      LowerCharSpace(s[|s| - 1]);
      assert Lower(s)[|s| - 1] == LowerChar(s[|s| - 1]);
      assert Lower(s)[..|s| - 1] == Lower(s[..|s| - 1]);
      TrimEndLower(s[..|s| - 1]);
    }
  }

  // ---------------------------------------------------------------- the decision

  /** The user name is matched whatever white space surrounds it. */
  lemma LoginIgnoresPadding(pre: string, user: string, post: string, pass: string)
    requires AllSpace(pre) && AllSpace(post)
    ensures RoleFor(pre + user + post, pass) == RoleFor(user, pass)
  {
    TrimIgnoresPadding(pre, user, post);
  }

  /** The user name is matched whatever the case of its Latin letters. */
  lemma LoginIgnoresCase(user: string, pass: string)
    ensures RoleFor(Lower(user), pass) == RoleFor(user, pass)
  {
    TrimStartLower(user);
    TrimEndLower(TrimStart(user));
    LowerIdempotent(Trim(user));
  }

  /** Each role has one account and one password, compared exactly. */
  lemma LoginAccounts(user: string, pass: string)
    ensures RoleFor(user, pass) == Some(User) <==> Normalize(user) == "diretoria" && pass == "14133*"
    ensures RoleFor(user, pass) == Some(Admin) <==> Normalize(user) == "financeiro" && pass == "JMLmaisforte26"
    ensures RoleFor(user, pass) == None <==>
      !(Normalize(user) == "diretoria" && pass == "14133*") &&
      !(Normalize(user) == "financeiro" && pass == "JMLmaisforte26")
  {
  }

  /** A string that does not start or end with white space is its own trim. */
  lemma TrimUntouched(s: string)
    requires s != [] && !IsSpace(s[0]) && !IsSpace(s[|s| - 1])
    ensures Trim(s) == s
  {
  }

  /** Any spelling of an account name that lower-cases to it is accepted, with
      any white space around it. */
  lemma LoginAcceptsVariants(pre: string, name: string, post: string, pass: string)
    requires AllSpace(pre) && AllSpace(post)
    ensures Lower(name) == "diretoria" && pass == "14133*" ==> RoleFor(pre + name + post, pass) == Some(User)
    ensures Lower(name) == "financeiro" && pass == "JMLmaisforte26" ==> RoleFor(pre + name + post, pass) == Some(Admin)
  {
    LoginIgnoresPadding(pre, name, post, pass);
    if Lower(name) == "diretoria" || Lower(name) == "financeiro" {
      assert LowerChar(name[0]) == Lower(name)[0];
      assert LowerChar(name[|name| - 1]) == Lower(name)[|name| - 1];
      TrimUntouched(name);
    }
  }

  /** Examples that the passwords are not trimmed, not case-folded and not
      interchangeable: a padded password, a lower-cased one, and the admin password
      given to the `diretoria` account. */
  lemma LoginExamplesRefused(user: string)
    ensures RoleFor(user, " 14133*") == None
    ensures RoleFor(user, "jmlmaisforte26") == None
    ensures Normalize(user) == "diretoria" ==> RoleFor(user, "JMLmaisforte26") == None
  {
    assert " 14133*"[0] != "14133*"[0];
    assert "jmlmaisforte26"[0] != "JMLmaisforte26"[0];
    assert "diretoria"[0] != "financeiro"[0];
  }
}
