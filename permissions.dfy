/**
 * The permission-insertion tool: for every route of the permission map it
 * rewrites the server's handlers `app.<method>('<route>', ...` into
 * `app.<method>('<route>', checkPermission('<permission>'), ...`, and
 * counts the routes whose substitution changed the text.
 */
module Permissions {
  import opened Wrappers
  import opened Text

  // ----- the permission map -----

  /** `permissionMap`, in the order `Object.entries` lists it. */
  const PermissionMap: seq<(string, string)> := [
    ("GET /api/permissions", "manage_admins"),
    ("GET /api/roles", "manage_admins"),
    ("POST /api/roles", "manage_admins"),
    ("GET /api/roles/:id/permissions", "manage_admins"),
    ("POST /api/roles/:id/permissions", "manage_admins"),
    ("GET /api/admins", "manage_admins"),
    ("POST /api/admins", "manage_admins"),
    ("GET /api/users", "view_users"),
    ("POST /api/users", "manage_users"),
    ("PUT /api/users/:id", "manage_users"),
    ("DELETE /api/users/:id", "manage_users"),
    ("GET /api/student-info/:id", "view_users"),
    ("GET /api/users/:id", "view_users"),
    ("GET /api/pcs", "view_masters"),
    ("POST /api/pcs", "manage_masters"),
    ("PUT /api/pcs/:id", "manage_masters"),
    ("DELETE /api/pcs/:id", "manage_masters"),
    ("GET /api/class_slots", "view_masters"),
    ("POST /api/class_slots", "manage_masters"),
    ("PUT /api/class_slots/:id", "manage_masters"),
    ("DELETE /api/class_slots/:id", "manage_masters"),
    ("GET /api/schedules", "view_schedules"),
    ("POST /api/schedules", "manage_schedules"),
    ("PUT /api/schedules/:id", "manage_schedules"),
    ("DELETE /api/schedules/:id", "manage_schedules"),
    ("PUT /api/schedules/:id/status", "manage_schedules"),
    ("POST /api/schedules/bulk", "manage_schedules"),
    ("POST /api/entry_logs", "manage_schedules"),
    ("DELETE /api/entry_logs/today", "manage_schedules"),
    ("GET /api/daily-roster", "view_schedules"),
    ("POST /api/live/make-absent", "manage_schedules"),
    ("GET /api/live/current-class", "view_schedules"),
    ("GET /api/unaccounted", "view_schedules"),
    ("GET /api/export", "perform_backup"),
    ("POST /api/import", "perform_backup")
  ]

  // ----- the route key -----

  /**
   * `const [method, route] = routeKey.split(' ')`: the text before the
   * first space and the text between it and the next one. A key without a
   * space leaves `route` undefined, and `route.replace` then throws.
   */
  function SplitKey(key: string): (r: Option<(string, string)>)
    ensures r.Some? <==> ' ' in key
  {
    var verb := BeforeFirst(key, ' ');
    if |verb| == |key| then None
    else Some((verb, BeforeFirst(key[|verb| + 1..], ' ')))
  }

  /** A verb and a route, neither holding a space, come back out of the key `verb + " " + route`. */
  lemma SplitKeyJoin(verb: string, route: string)
    requires ' ' !in verb && ' ' !in route
    ensures SplitKey(verb + " " + route) == Some((verb, route))
  {
    var key := verb + " " + route;
    assert key == verb + [' '] + route;
    BeforeFirstConcat(verb, ' ', route);
    assert key[|verb| + 1..] == route;
    assert BeforeFirst(route + [' '] + [], ' ') == route by {
      BeforeFirstConcat(route, ' ', []);
    }
    BeforeFirstOfNone(route, ' ');
  }

  /** Without the separator, all of the text comes before it. */
  lemma {:induction false} BeforeFirstOfNone(s: string, c: char)
    requires c !in s
    ensures BeforeFirst(s, c) == s
  {
    if s != [] {
      BeforeFirstOfNone(s[1..], c);
    }
  }

  /** `toLowerCase()` on an ASCII letter. */
  function LowerChar(c: char): (l: char)
    ensures ('A' <= c <= 'Z') ==> l as int == c as int + 32
    ensures !('A' <= c <= 'Z') ==> l == c
  {
    if 'A' <= c <= 'Z' then (c as int + 32) as char else c
  }

  function Lower(s: string): (r: string)
    ensures |r| == |s| && forall i :: 0 <= i < |s| ==> r[i] == LowerChar(s[i])
  {
    seq(|s|, i requires 0 <= i < |s| => LowerChar(s[i]))
  }

  /** Lowering twice is lowering once; an ASCII text comes out with no capital letter. */
  lemma LowerIdempotent(s: string)
    ensures Lower(Lower(s)) == Lower(s)
    ensures forall i :: 0 <= i < |s| ==> !('A' <= Lower(s)[i] <= 'Z')
  {
  }

  // ----- escaping the route -----

  /** A character of the class `[-\/\\^$*+?.()|[\]{}]`. */
  predicate IsMeta(c: char) {
    c == '-' || c == '/' || c == '\\' || c == '^' || c == '$' || c == '*' || c == '+' || c == '?'
    || c == '.' || c == '(' || c == ')' || c == '|' || c == '[' || c == ']' || c == '{' || c == '}'
  }

  function MetaCount(s: string): nat {
    if s == [] then 0 else (if IsMeta(s[0]) then 1 else 0) + MetaCount(s[1..])
  }

  /** `route.replace(/[-\/\\^$*+?.()|[\]{}]/g, '\\$&')`: a backslash before every metacharacter. */
  function Escape(s: string): (e: string)
    ensures |e| == |s| + MetaCount(s)
  {
    if s == [] then [] else (if IsMeta(s[0]) then ['\\', s[0]] else [s[0]]) + Escape(s[1..])
  }

  /**
   * The text a regular expression source matches when it holds only plain
   * characters and backslash-escaped metacharacters; `None` for any other
   * source.
   */
  function LiteralOf(p: string): Option<string>
    decreases |p|
  {
    if p == [] then Some([])
    else if p[0] == '\\' then
      if |p| >= 2 && IsMeta(p[1]) then
        match LiteralOf(p[2..])
        case None => None
        case Some(t) => Some([p[1]] + t)
      else None
    else if IsMeta(p[0]) then None
    else
      match LiteralOf(p[1..])
      case None => None
      case Some(t) => Some([p[0]] + t)
  }

  /** The escaped route, used as a pattern, matches exactly the route's own text. */
  lemma {:induction false} EscapeIsLiteral(s: string)
    ensures LiteralOf(Escape(s)) == Some(s)
  {
    if s != [] {
      EscapeIsLiteral(s[1..]);
      var e := Escape(s);
      if IsMeta(s[0]) {
        assert e[2..] == Escape(s[1..]);
      } else {
        assert e[1..] == Escape(s[1..]);
      }
      assert s == [s[0]] + s[1..];
    }
  }

  /** A route without metacharacters is left as it is. */
  lemma {:induction false} EscapeNoMeta(s: string)
    requires forall i :: 0 <= i < |s| ==> !IsMeta(s[i])
    ensures Escape(s) == s
  {
    if s != [] {
      EscapeNoMeta(s[1..]);
      assert s == [s[0]] + s[1..];
    }
  }

  // ----- the handler pattern -----

  /** `\s`: the white space and line terminators of ECMAScript, the same set `trim` removes. */
  function SkipSpaces(s: string, i: nat): (j: nat)
    requires i <= |s|
    ensures i <= j <= |s|
    ensures forall k :: i <= k < j ==> IsSpace(s[k])
    ensures j < |s| ==> !IsSpace(s[j])
    decreases |s| - i
  {
    if i < |s| && IsSpace(s[i]) then SkipSpaces(s, i + 1) else i
  }

  /** `['\`"]`: any of the three quotes; the opening and closing quote need not be the same. */
  predicate IsQuote(c: char) {
    c == '\'' || c == '`' || c == '"'
  }

  /** `app\.<m>\s*\(` at the start of `s`: the index just after the parenthesis. */
  function CallOpen(s: string, m: string): (i: Option<nat>)
    ensures i.Some? ==> 4 + |m| < i.value <= |s| && s[i.value - 1] == '('
  {
    var a := "app." + m;
    if !StartsWith(s, a) then None
    else
      var i := SkipSpaces(s, |a|);
      if i < |s| && s[i] == '(' then Some(i + 1) else None
  }

  /** `\s*['\`"]<route>['\`"]` from index `i`: the index just after the closing quote. */
  function QuotedRoute(s: string, i: nat, route: string): (j: Option<nat>)
    requires i <= |s|
    ensures j.Some? ==> i + 2 + |route| <= j.value <= |s| && IsQuote(s[j.value - 1])
    ensures j.Some? ==> var q := j.value - 2 - |route|;
      IsQuote(s[q]) && s[q + 1..j.value - 1] == route
  {
    var q := SkipSpaces(s, i);
    if q >= |s| || !IsQuote(s[q]) || !StartsWith(s[q + 1..], route) then None
    else
      var e := q + 1 + |route|;
      assert s[q + 1..e] == s[q + 1..][..|route|];
      if e < |s| && IsQuote(s[e]) then Some(e + 1) else None
  }

  /** `\s*,` from index `i`: the index just after the comma. */
  function Comma(s: string, i: nat): (j: Option<nat>)
    requires i <= |s|
    ensures j.Some? ==> i < j.value <= |s| && s[j.value - 1] == ','
  {
    var c := SkipSpaces(s, i);
    if c < |s| && s[c] == ',' then Some(c + 1) else None
  }

  /**
   * `app\.<m>\s*\(\s*['\`"]<route>['\`"]\s*,` at the start of `s`: the index
   * just after the comma. Each `\s*` there is followed by a character that
   * is not white space, so backtracking into it never helps and it takes
   * all the white space there is.
   */
  function HandlerHead(s: string, m: string, route: string): (h: Option<nat>)
    ensures h.Some? ==> 4 + |m| < h.value <= |s| && s[h.value - 1] == ','
  {
    match CallOpen(s, m)
    case None => None
    case Some(i) =>
      match QuotedRoute(s, i, route)
      case None => None
      case Some(j) => Comma(s, j)
  }

  /** The text the lookahead refuses. */
  const CheckCall: string := "checkPermission("

  /**
   * How the final `\s*(?!checkPermission\()` behaves. As written, when the
   * lookahead fails after all the white space, the regular expression
   * backtracks and gives back one white space character, so the lookahead
   * then sees that space and succeeds. Corrected, the lookahead is judged
   * after all the white space, as `(?!\s|checkPermission\()` does.
   */
  datatype Lookahead = AsWritten | Corrected

  /** The length of the handler match at the start of `s`, the text `$1` captures. */
  function MatchLength(s: string, m: string, route: string, look: Lookahead): (n: Option<nat>)
    ensures n.Some? ==> HandlerHead(s, m, route).Some? && HandlerHead(s, m, route).value <= n.value <= |s|
    ensures n.Some? ==> 5 <= n.value
  {
    match HandlerHead(s, m, route)
    case None => None
    case Some(i) =>
      var j := SkipSpaces(s, i);
      if !StartsWith(s[j..], CheckCall) then Some(j)
      else if look == AsWritten && j > i then Some(j - 1)
      else None
  }

  /** `checkPermission('<perm>'), `, placed after each match. */
  function Insertion(perm: string): (ins: string)
    ensures StartsWith(ins, CheckCall)
  {
    var ins := CheckCall + "'" + perm + "'), ";
    assert ins[..|CheckCall|] == CheckCall;
    ins
  }

  /**
   * `content.replace(pattern, replacement)` with the global flag: the
   * search goes on after the end of each match, and the inserted text is
   * never searched.
   */
  function Rewrite(s: string, m: string, route: string, ins: string, look: Lookahead): (r: string)
    ensures |r| >= |s|
    decreases |s|
  {
    if s == [] then []
    else
      match MatchLength(s, m, route, look)
      case Some(n) => s[..n] + ins + Rewrite(s[n..], m, route, ins, look)
      case None => [s[0]] + Rewrite(s[1..], m, route, ins, look)
  }

  /** The number of handlers the substitution rewrites. */
  function Matches(s: string, m: string, route: string, look: Lookahead): nat
    decreases |s|
  {
    if s == [] then 0
    else
      match MatchLength(s, m, route, look)
      case Some(n) => 1 + Matches(s[n..], m, route, look)
      case None => Matches(s[1..], m, route, look)
  }

  /**
   * The substitution only inserts: the text grows by one insertion per
   * rewritten handler.
   */
  lemma {:induction false} RewriteLength(s: string, m: string, route: string, ins: string, look: Lookahead)
    ensures |Rewrite(s, m, route, ins, look)| == |s| + Matches(s, m, route, look) * |ins|
    decreases |s|
  {
    if s != [] {
      var ml := MatchLength(s, m, route, look);
      if ml.Some? {
        var n := ml.value;
        RewriteLength(s[n..], m, route, ins, look);
        RewriteMatched(s, m, route, ins, look, n);
        MatchesMatched(s, m, route, look, n);
        MulSucc(Matches(s[n..], m, route, look), |ins|);
      } else {
        RewriteLength(s[1..], m, route, ins, look);
        RewriteUnmatched(s, m, route, ins, look);
        MatchesUnmatched(s, m, route, look);
      }
    }
  }

  /** Where no handler matches, the substitution leaves the text as it is. */
  lemma {:induction false} RewriteNoMatch(s: string, m: string, route: string, ins: string, look: Lookahead)
    requires Matches(s, m, route, look) == 0
    ensures Rewrite(s, m, route, ins, look) == s
    decreases |s|
  {
    if s != [] {
      var ml := MatchLength(s, m, route, look);
      if ml.Some? {
        assert false;
      } else {
        RewriteUnmatched(s, m, route, ins, look);
        MatchesUnmatched(s, m, route, look);
        RewriteNoMatch(s[1..], m, route, ins, look);
        assert s == [s[0]] + s[1..];
      }
    }
  }

  /** One step of the substitution at a match of length `n`. */
  lemma RewriteMatched(s: string, m: string, route: string, ins: string, look: Lookahead, n: nat)
    requires s != [] && MatchLength(s, m, route, look) == Some(n)
    ensures Rewrite(s, m, route, ins, look) == s[..n] + ins + Rewrite(s[n..], m, route, ins, look)
    ensures |s[..n] + ins + Rewrite(s[n..], m, route, ins, look)| == n + |ins| + |Rewrite(s[n..], m, route, ins, look)|
  {
  }

  lemma MatchesMatched(s: string, m: string, route: string, look: Lookahead, n: nat)
    requires s != [] && MatchLength(s, m, route, look) == Some(n)
    ensures Matches(s, m, route, look) == 1 + Matches(s[n..], m, route, look)
  {
  }

  /** One step of the substitution where no handler starts. */
  lemma RewriteUnmatched(s: string, m: string, route: string, ins: string, look: Lookahead)
    requires s != [] && MatchLength(s, m, route, look).None?
    ensures Rewrite(s, m, route, ins, look) == [s[0]] + Rewrite(s[1..], m, route, ins, look)
  {
  }

  lemma MatchesUnmatched(s: string, m: string, route: string, look: Lookahead)
    requires s != [] && MatchLength(s, m, route, look).None?
    ensures Matches(s, m, route, look) == Matches(s[1..], m, route, look)
  {
  }

  lemma MulSucc(k: nat, l: nat)
    ensures (1 + k) * l == l + k * l
  {
  }

  lemma {:induction false} MulAtLeast(k: nat, l: nat)
    requires k >= 1
    ensures k * l >= l
  {
    if k > 1 {
      MulAtLeast(k - 1, l);
      MulSucc(k - 1, l);
    }
  }

  /** With a non-empty insertion, the text is changed exactly when a handler matched. */
  lemma RewriteChanges(s: string, m: string, route: string, ins: string, look: Lookahead)
    requires ins != []
    ensures Rewrite(s, m, route, ins, look) != s <==> Matches(s, m, route, look) > 0
  {
    RewriteLength(s, m, route, ins, look);
    var k := Matches(s, m, route, look);
    if k > 0 {
      MulAtLeast(k, |ins|);
    } else {
      RewriteNoMatch(s, m, route, ins, look);
    }
  }

  // ----- only exact routes match -----

  /**
   * The route of a match sits between two quotes, whatever white space
   * and quote characters the handler uses: position `q` opens the route
   * text, and a quote stands on each side of it.
   */
  lemma RouteBetweenQuotes(s: string, m: string, route: string, look: Lookahead) returns (q: nat)
    requires MatchLength(s, m, route, look).Some?
    ensures 0 < q && q + |route| < |s|
    ensures IsQuote(s[q - 1]) && s[q..q + |route|] == route && IsQuote(s[q + |route|])
  {
    var i := CallOpen(s, m).value;
    var j := QuotedRoute(s, i, route).value;
    q := j - 1 - |route|;
  }

  /**
   * Hence the key for `route` never matches a handler for a longer path
   * `route + t`, such as `/api/users` against `/api/users/:id`: in any text
   * at most one of the two matches.
   */
  lemma ExactRouteOnly(s: string, m: string, route: string, t: string, look: Lookahead)
    requires t != [] && !IsQuote(t[0])
    ensures MatchLength(s, m, route, look).None? || MatchLength(s, m, route + t, look).None?
  {
    match CallOpen(s, m)
    case None =>
    case Some(i) => QuotedRouteExact(s, i, route, t);
  }

  /** From the same position, a route and its extension by a non-quote cannot both be quoted. */
  lemma QuotedRouteExact(s: string, i: nat, route: string, t: string)
    requires i <= |s| && t != [] && !IsQuote(t[0])
    ensures QuotedRoute(s, i, route).None? || QuotedRoute(s, i, route + t).None?
  {
    var q := SkipSpaces(s, i);
    if QuotedRoute(s, i, route + t).Some? {
      assert s[q + 1..][..|route + t|] == route + t;
      assert s[q + 1 + |route|] == (route + t)[|route|] == t[0];
    }
  }

  // ----- skipping handlers already guarded -----

  /**
   * Corrected, a handler just rewritten is not matched again, whatever
   * follows the insertion.
   */
  lemma RewrittenHandlerSkipped(s: string, m: string, route: string, perm: string, t: string) returns (n: nat)
    requires MatchLength(s, m, route, Corrected).Some?
    ensures MatchLength(s, m, route, Corrected) == Some(n)
    ensures MatchLength(s[..n] + Insertion(perm) + t, m, route, Corrected).None?
  {
    n := MatchLength(s, m, route, Corrected).value;
    var i := HandlerHead(s, m, route).value;
    InsertionAfterSpaces(s, m, route, perm, t, i, n);
    MatchLengthGuarded(s[..n] + Insertion(perm) + t, m, route, Corrected, i, n);
  }

  /**
   * After an insertion at `n`, at the end of white space that starts at the
   * handler head `i`, the head is unchanged and its white space runs up to
   * `checkPermission(`.
   */
  lemma InsertionAfterSpaces(s: string, m: string, route: string, perm: string, t: string, i: nat, n: nat)
    requires HandlerHead(s, m, route) == Some(i) && i <= n <= |s|
    requires forall k :: i <= k < n ==> IsSpace(s[k])
    ensures HandlerHead(s[..n] + Insertion(perm) + t, m, route) == Some(i)
    ensures SkipSpaces(s[..n] + Insertion(perm) + t, i) == n
    ensures StartsWith((s[..n] + Insertion(perm) + t)[n..], CheckCall)
  {
    var rest := Insertion(perm) + t;
    ConcatAssoc(s[..n], Insertion(perm), t);
    StartsWithExtended(Insertion(perm), t, CheckCall);
    GuardAfterSpaces(s, m, route, rest, i, n);
  }

  lemma ConcatAssoc(a: string, b: string, c: string)
    ensures a + b + c == a + (b + c)
  {
  }

  lemma StartsWithExtended(a: string, b: string, p: string)
    requires StartsWith(a, p)
    ensures StartsWith(a + b, p)
  {
    assert (a + b)[..|p|] == a[..|p|];
  }

  /** The same, for any text `rest` that starts with `checkPermission(`. */
  lemma GuardAfterSpaces(s: string, m: string, route: string, rest: string, i: nat, n: nat)
    requires HandlerHead(s, m, route) == Some(i) && i <= n <= |s|
    requires forall k :: i <= k < n ==> IsSpace(s[k])
    requires StartsWith(rest, CheckCall)
    ensures HandlerHead(s[..n] + rest, m, route) == Some(i)
    ensures SkipSpaces(s[..n] + rest, i) == n
    ensures StartsWith((s[..n] + rest)[n..], CheckCall)
  {
    assert rest[0] == CheckCall[0];
    HeadOfExtension(s, n, rest, m, route);
    SkipSpacesOfExtension(s, i, n, rest);
    assert (s[..n] + rest)[n..] == rest;
  }

  /** `u` and `s` hold the same first `h` characters. */
  ghost predicate Agree(s: string, u: string, h: nat) {
    h <= |s| && h <= |u| && forall k :: 0 <= k < h ==> u[k] == s[k]
  }

  /** The handler head reads no further than the match, so what follows the match does not change it. */
  lemma HeadOfExtension(s: string, n: nat, t: string, m: string, route: string)
    requires HandlerHead(s, m, route).Some? && HandlerHead(s, m, route).value <= n <= |s|
    ensures HandlerHead(s[..n] + t, m, route) == HandlerHead(s, m, route)
  {
    var u := s[..n] + t;
    var h := HandlerHead(s, m, route).value;
    assert Agree(s, u, h);
    var i := CallOpen(s, m).value;
    CallOpenAgree(s, u, m, h);
    var j := QuotedRoute(s, i, route).value;
    QuotedRouteAgree(s, u, i, route, h);
    CommaAgree(s, u, j, h);
  }

  lemma CallOpenAgree(s: string, u: string, m: string, h: nat)
    requires Agree(s, u, h) && CallOpen(s, m).Some? && CallOpen(s, m).value <= h
    ensures CallOpen(u, m) == CallOpen(s, m)
  {
    var a := "app." + m;
    assert u[..|a|] == s[..|a|];
    SkipSpacesAgree(s, u, |a|, h);
  }

  lemma QuotedRouteAgree(s: string, u: string, i: nat, route: string, h: nat)
    requires i <= |s| && i <= |u| && Agree(s, u, h)
    requires QuotedRoute(s, i, route).Some? && QuotedRoute(s, i, route).value <= h
    ensures QuotedRoute(u, i, route) == QuotedRoute(s, i, route)
  {
    var q := SkipSpaces(s, i);
    SkipSpacesAgree(s, u, i, h);
    assert u[q + 1..][..|route|] == s[q + 1..][..|route|];
  }

  lemma CommaAgree(s: string, u: string, i: nat, h: nat)
    requires i <= |s| && i <= |u| && Agree(s, u, h)
    requires Comma(s, i).Some? && Comma(s, i).value <= h
    ensures Comma(u, i) == Comma(s, i)
  {
    SkipSpacesAgree(s, u, i, h);
  }

  /** White space skipping agrees on two texts that agree up to a non-space character at or before `h - 1`. */
  lemma {:induction false} SkipSpacesAgree(s: string, u: string, i: nat, h: nat)
    requires i <= |s| && i <= |u| && Agree(s, u, h)
    requires SkipSpaces(s, i) < h
    ensures SkipSpaces(u, i) == SkipSpaces(s, i)
    decreases |s| - i
  {
    if i < |s| && IsSpace(s[i]) {
      SkipSpacesAgree(s, u, i + 1, h);
    }
  }

  /** Past the white space of the match, the extension starts with a non-space character. */
  lemma {:induction false} SkipSpacesOfExtension(s: string, i: nat, n: nat, t: string)
    requires i <= n <= |s| && (forall k :: i <= k < n ==> IsSpace(s[k]))
    requires t != [] && !IsSpace(t[0])
    ensures SkipSpaces(s[..n] + t, i) == n
    decreases n - i
  {
    var u := s[..n] + t;
    if i < n {
      assert u[i] == s[i];
      SkipSpacesOfExtension(s, i + 1, n, t);
    } else {
      assert u[n] == t[0];
    }
  }

  // ----- the lookahead as written -----

  /**
   * As written, a handler already guarded is matched again whenever white
   * space follows its comma: the match gives back the last space, and the
   * lookahead then sees that space instead of `checkPermission(`.
   */
  lemma AsWrittenMatchesAgain(s: string, m: string, route: string, perm: string, t: string) returns (n: nat)
    requires MatchLength(s, m, route, AsWritten).Some?
    requires HandlerHead(s, m, route).value < MatchLength(s, m, route, AsWritten).value
    ensures MatchLength(s, m, route, AsWritten) == Some(n)
    ensures MatchLength(s[..n] + Insertion(perm) + t, m, route, AsWritten) == Some(n - 1)
  {
    n := MatchLength(s, m, route, AsWritten).value;
    var i := HandlerHead(s, m, route).value;
    InsertionAfterSpaces(s, m, route, perm, t, i, n);
    MatchLengthGuarded(s[..n] + Insertion(perm) + t, m, route, AsWritten, i, n);
  }

  /** The match at a handler head whose white space runs up to `checkPermission(`. */
  lemma MatchLengthGuarded(u: string, m: string, route: string, look: Lookahead, i: nat, j: nat)
    requires HandlerHead(u, m, route) == Some(i) && SkipSpaces(u, i) == j && StartsWith(u[j..], CheckCall)
    ensures MatchLength(u, m, route, look) == if look == AsWritten && j > i then Some(j - 1) else None
  {
  }

  /** So a second run of the substitution as written changes a text the first run already guarded. */
  lemma AsWrittenNotIdempotent(s: string, m: string, route: string, perm: string, t: string)
    requires MatchLength(s, m, route, AsWritten).Some?
    requires HandlerHead(s, m, route).value < MatchLength(s, m, route, AsWritten).value
    ensures var u := s[..MatchLength(s, m, route, AsWritten).value] + Insertion(perm) + t;
      Rewrite(u, m, route, Insertion(perm), AsWritten) != u
  {
    var n := AsWrittenMatchesAgain(s, m, route, perm, t);
    var u := s[..n] + Insertion(perm) + t;
    ChangedWhenMatched(u, m, route, Insertion(perm), AsWritten);
  }

  /** A text with a handler at its start is changed by the substitution. */
  lemma ChangedWhenMatched(u: string, m: string, route: string, ins: string, look: Lookahead)
    requires ins != [] && MatchLength(u, m, route, look).Some?
    ensures Rewrite(u, m, route, ins, look) != u
  {
    MatchesMatched(u, m, route, look, MatchLength(u, m, route, look).value);
    RewriteChanges(u, m, route, ins, look);
  }

  /** `app.get('/api/users', h)`: one space after the comma, the usual layout of a handler. */
  const UsersHandler: string := "app.get('/api/users', h)"

  lemma UsersHandlerCall()
    ensures CallOpen(UsersHandler, "get") == Some(8)
  {
    var s := UsersHandler;
    assert s[..7] == "app.get";
    assert s[7] == '(' && !IsSpace(s[7]);
    assert SkipSpaces(s, 7) == 7;
  }

  lemma UsersHandlerRoute()
    ensures QuotedRoute(UsersHandler, 8, "/api/users") == Some(20)
  {
    var s := UsersHandler;
    assert s[8] == '\'' && !IsSpace(s[8]);
    assert SkipSpaces(s, 8) == 8;
    assert s[9..][..10] == "/api/users";
    assert s[19] == '\'';
  }

  lemma UsersHandlerComma()
    ensures Comma(UsersHandler, 20) == Some(21)
  {
    var s := UsersHandler;
    assert s[20] == ',' && !IsSpace(s[20]);
    assert SkipSpaces(s, 20) == 20;
  }

  lemma UsersHandlerMatch()
    ensures HandlerHead(UsersHandler, "get", "/api/users") == Some(21)
    ensures MatchLength(UsersHandler, "get", "/api/users", AsWritten) == Some(22)
    ensures MatchLength(UsersHandler, "get", "/api/users", Corrected) == Some(22)
  {
    var s := UsersHandler;
    UsersHandlerCall();
    UsersHandlerRoute();
    UsersHandlerComma();
    assert s[21] == ' ' && s[22] == 'h' && !IsSpace(s[22]);
    assert SkipSpaces(s, 22) == 22;
    assert SkipSpaces(s, 21) == 22;
    assert s[22..] == "h)";
  }

  /**
   * Running the tool twice on `app.get('/api/users', h)` inserts the check
   * a second time, against the promise that a guarded route is skipped.
   */
  lemma UsersHandlerGuardedTwice()
    ensures var once := "app.get('/api/users', " + Insertion("view_users") + "h)";
      Rewrite(once, "get", "/api/users", Insertion("view_users"), AsWritten) != once
  {
    var s := UsersHandler;
    UsersHandlerMatch();
    assert s[..22] == "app.get('/api/users', " && s[22..] == "h)";
    AsWrittenNotIdempotent(s, "get", "/api/users", "view_users", "h)");
  }

  // ----- the run over the map -----

  /** The text after some entries, and the number of entries whose substitution changed it. */
  datatype Applied = Applied(content: string, changes: nat)

  /**
   * The substitution for one entry: the method lowered, the route escaped
   * and read back as the literal text the pattern matches.
   */
  function Substitute(content: string, verb: string, route: string, perm: string, look: Lookahead): (r: string)
    ensures |r| >= |content|
    ensures r != content ==> |r| > |content|
  {
    EscapeIsLiteral(route);
    var literal := LiteralOf(Escape(route)).value;
    RewriteGrows(content, Lower(verb), literal, Insertion(perm), look);
    Rewrite(content, Lower(verb), literal, Insertion(perm), look)
  }

  /** The substitution never shortens the text, and lengthens it whenever it changes it. */
  lemma RewriteGrows(s: string, m: string, route: string, ins: string, look: Lookahead)
    requires ins != []
    ensures |Rewrite(s, m, route, ins, look)| >= |s|
    ensures Rewrite(s, m, route, ins, look) != s ==> |Rewrite(s, m, route, ins, look)| > |s|
  {
    RewriteLength(s, m, route, ins, look);
    RewriteChanges(s, m, route, ins, look);
    var k := Matches(s, m, route, look);
    if k > 0 {
      MulAtLeast(k, |ins|);
    }
  }

  /**
   * One entry of the map applied to the text: `None` when the key has no
   * space, where `route.replace` throws and the file is left unwritten.
   */
  function Step(st: Applied, key: string, perm: string, look: Lookahead): (r: Option<Applied>)
    ensures r.Some? <==> ' ' in key
    ensures r.Some? ==> |r.value.content| >= |st.content|
    ensures r.Some? && r.value.content != st.content ==> |r.value.content| > |st.content|
    ensures r.Some? ==> r.value.changes == st.changes + (if r.value.content != st.content then 1 else 0)
  {
    match SplitKey(key)
    case None => None
    case Some(parts) =>
      var next := Substitute(st.content, parts.0, parts.1, perm, look);
      Some(Applied(next, if next != st.content then st.changes + 1 else st.changes))
  }

  /** The entries applied in order to `content`, counting from no changes. */
  function Run(content: string, entries: seq<(string, string)>, look: Lookahead): (r: Option<Applied>)
    ensures r.Some? ==> r.value.changes <= |entries| && |r.value.content| >= |content|
    decreases |entries|
  {
    if entries == [] then Some(Applied(content, 0))
    else
      match Run(content, entries[..|entries| - 1], look)
      case None => None
      case Some(st) => Step(st, entries[|entries| - 1].0, entries[|entries| - 1].1, look)
  }

  /** The run over one more entry is that entry's step after the run so far. */
  lemma RunStepAt(content: string, entries: seq<(string, string)>, i: nat, st: Applied, look: Lookahead)
    requires i < |entries| && Run(content, entries[..i], look) == Some(st)
    ensures Run(content, entries[..i + 1], look) == Step(st, entries[i].0, entries[i].1, look)
  {
    assert entries[..i + 1][..i] == entries[..i];
  }

  /** The step for a key that splits: the pattern built from its two parts, applied once. */
  lemma StepIs(st: Applied, key: string, perm: string, look: Lookahead, parts: (string, string), route: string, next: string)
    requires SplitKey(key) == Some(parts) && LiteralOf(Escape(parts.1)) == Some(route)
    requires next == Rewrite(st.content, Lower(parts.0), route, Insertion(perm), look)
    ensures Step(st, key, perm, look) == Some(Applied(next, if next != st.content then st.changes + 1 else st.changes))
  {
  }

  /** Once some key has failed to split, the run as a whole fails. */
  lemma {:induction false} RunPrefixNone(content: string, entries: seq<(string, string)>, i: nat, look: Lookahead)
    requires i <= |entries| && Run(content, entries[..i], look).None?
    ensures Run(content, entries, look).None?
    decreases |entries|
  {
    if i < |entries| {
      var init := entries[..|entries| - 1];
      assert init[..i] == entries[..i];
      RunPrefixNone(content, init, i, look);
    } else {
      assert entries[..i] == entries;
    }
  }

  /** When every key holds a space, the run succeeds. */
  lemma {:induction false} RunSome(content: string, entries: seq<(string, string)>, look: Lookahead)
    requires forall i :: 0 <= i < |entries| ==> ' ' in entries[i].0
    ensures Run(content, entries, look).Some?
    decreases |entries|
  {
    if entries != [] {
      var init := entries[..|entries| - 1];
      assert forall i :: 0 <= i < |init| ==> init[i] == entries[i];
      RunSome(content, init, look);
      var st := Run(content, init, look).value;
      var last := entries[|entries| - 1];
      assert Run(content, entries, look) == Step(st, last.0, last.1, look);
    }
  }

  /** A key without a space makes the whole run fail. */
  lemma RunNone(content: string, entries: seq<(string, string)>, j: nat, look: Lookahead)
    requires j < |entries| && ' ' !in entries[j].0
    ensures Run(content, entries, look).None?
  {
    var pre := entries[..j + 1];
    assert pre[|pre| - 1] == entries[j];
    RunLastNone(content, pre, look);
    RunPrefixNone(content, entries, j + 1, look);
  }

  /** A last key without a space makes the run fail. */
  lemma RunLastNone(content: string, entries: seq<(string, string)>, look: Lookahead)
    requires entries != [] && ' ' !in entries[|entries| - 1].0
    ensures Run(content, entries, look).None?
  {
  }

  /**
   * The count is at most the number of entries, the text only grows, by at
   * least one character per counted change, and a count of zero means the
   * text is as it was.
   */
  lemma {:induction false} RunChanges(content: string, entries: seq<(string, string)>, look: Lookahead)
    requires Run(content, entries, look).Some?
    ensures var r := Run(content, entries, look).value;
      && r.changes <= |entries|
      && |r.content| >= |content| + r.changes
      && (r.changes == 0 <==> r.content == content)
    decreases |entries|
  {
    if entries != [] {
      var init := entries[..|entries| - 1];
      RunChanges(content, init, look);
      var st := Run(content, init, look).value;
      var last := entries[|entries| - 1];
      assert Run(content, entries, look) == Step(st, last.0, last.1, look);
      ChangesStep(content, |init|, st, Step(st, last.0, last.1, look).value);
    }
  }

  /** The bounds of `RunChanges` carried over one more entry. */
  lemma ChangesStep(content: string, n: nat, st: Applied, r: Applied)
    requires st.changes <= n && |st.content| >= |content| + st.changes
    requires st.changes == 0 <==> st.content == content
    requires |r.content| >= |st.content| && (r.content != st.content ==> |r.content| > |st.content|)
    requires r.changes == st.changes + (if r.content != st.content then 1 else 0)
    ensures r.changes <= n + 1 && |r.content| >= |content| + r.changes
    ensures r.changes == 0 <==> r.content == content
  {
  }

  /** Every key of the map holds a space, so the run over it never throws. */
  lemma PermissionMapRuns(content: string, look: Lookahead)
    ensures Run(content, PermissionMap, look).Some?
  {
    KeysSpaced0To9();
    KeysSpaced9To18();
    KeysSpaced18To27();
    KeysSpaced27To35();
    RunSome(content, PermissionMap, look);
  }

  // The keys of the map, a few at a time: a method, a space and a route.

  predicate SpaceAt(key: string, j: int) {
    0 <= j < |key| && key[j] == ' '
  }

  lemma KeysSpaced0To9()
    ensures forall i :: 0 <= i < 9 ==> ' ' in PermissionMap[i].0
  {
    forall i | 0 <= i < 9 ensures ' ' in PermissionMap[i].0 {
      var key := PermissionMap[i].0;
      assert SpaceAt(key, 3) || SpaceAt(key, 4) || SpaceAt(key, 6);
    }
  }

  lemma KeysSpaced9To18()
    ensures forall i :: 9 <= i < 18 ==> ' ' in PermissionMap[i].0
  {
    forall i | 9 <= i < 18 ensures ' ' in PermissionMap[i].0 {
      var key := PermissionMap[i].0;
      assert SpaceAt(key, 3) || SpaceAt(key, 4) || SpaceAt(key, 6);
    }
  }

  lemma KeysSpaced18To27()
    ensures forall i :: 18 <= i < 27 ==> ' ' in PermissionMap[i].0
  {
    forall i | 18 <= i < 27 ensures ' ' in PermissionMap[i].0 {
      var key := PermissionMap[i].0;
      assert SpaceAt(key, 3) || SpaceAt(key, 4) || SpaceAt(key, 6);
    }
  }

  lemma KeysSpaced27To35()
    ensures forall i :: 27 <= i < 35 ==> ' ' in PermissionMap[i].0
  {
    forall i | 27 <= i < 35 ensures ' ' in PermissionMap[i].0 {
      var key := PermissionMap[i].0;
      assert SpaceAt(key, 3) || SpaceAt(key, 4) || SpaceAt(key, 6);
    }
  }

  /**
   * The body of the main loop for one entry: the key split at its first
   * space, the pattern built from the lowered method and the escaped
   * route, the substitution applied with the corrected lookahead, and the
   * count raised when the text changed.
   */
  method ApplyEntry(content: string, changes: nat, key: string, perm: string) returns (r: Option<Applied>)
    ensures r == Step(Applied(content, changes), key, perm, Corrected)
  {
    var parts := SplitKey(key);
    if parts.None? {
      return None;
    }
    var verb := Lower(parts.value.0);
    var escaped := Escape(parts.value.1);
    EscapeIsLiteral(parts.value.1);
    var route := LiteralOf(escaped).value;
    var newContent := Rewrite(content, verb, route, Insertion(perm), Corrected);
    var newChanges := changes;
    if content != newContent {
      newChanges := changes + 1;
    }
    StepIs(Applied(content, changes), key, perm, Corrected, parts.value, route, newContent);
    r := Some(Applied(newContent, newChanges));
  }

  /** The main loop: each entry applied to the text in order, stopping at a key that does not split. */
  method ApplyPermissions(content0: string, entries: seq<(string, string)>) returns (r: Option<Applied>)
    ensures r == Run(content0, entries, Corrected)
  {
    var content := content0;
    var changes := 0;
    var i := 0;
    while i < |entries|
      invariant 0 <= i <= |entries|
      invariant Run(content0, entries[..i], Corrected) == Some(Applied(content, changes))
    {
      var (key, perm) := entries[i];
      RunStepAt(content0, entries, i, Applied(content, changes), Corrected);
      var next := ApplyEntry(content, changes, key, perm);
      if next.None? {
        RunPrefixNone(content0, entries, i + 1, Corrected);
        return None;
      }
      content, changes := next.value.content, next.value.changes;
      i := i + 1;
    }
    assert entries[..i] == entries;
    r := Some(Applied(content, changes));
  }
}
