/**
 * The fixed regular expressions of the build-file parser, each as a
 * dedicated scanner. `MatchAt(p, s, i)` is the match JavaScript's
 * backtracking matcher finds for pattern `p` when it starts at index `i`;
 * `Exec` is one call of `RegExp.prototype.exec` on a global pattern (the
 * leftmost match at or after `lastIndex`), and `Found` is what a
 * `while ((match = pattern.exec(text)) !== null)` loop sees.
 */
module GradlePatterns {
  import opened Wrappers
  import opened Text

  /** The character classes that occur in the patterns. */
  datatype CharClass = Space | NotQuote | NotQuoteOrColon | Word | Digit | NotCloseBrace

  predicate InClass(c: char, k: CharClass) {
    match k
    case Space => IsSpace(c)
    case NotQuote => !IsQuote(c)
    case NotQuoteOrColon => !IsQuote(c) && c != ':'
    case Word => IsWordChar(c)
    case Digit => IsDigit(c)
    case NotCloseBrace => c != '}'
  }

  predicate AllIn(t: string, k: CharClass) {
    forall c :: c in t ==> InClass(c, k)
  }

  /** The patterns of gradle-parser.ts, by what they recognise. */
  datatype Pattern =
    | Include(kotlin: bool)        // include 'x'         | include("x")
    | PluginId(kotlin: bool)       // id 'x'              | id("x")
    | ApplyPlugin                  // apply plugin: 'x'   (Groovy)
    | KotlinPlugin                 // kotlin("x")         (Kotlin)
    | Coordinate(kotlin: bool)     // conf 'g:n:v'        | conf("g:n:v")
    | ProjectRef(kotlin: bool)     // conf project(':p')  | conf(project(":p"))
    | Block(keyword: string)       // keyword { body }
    | MavenUrl                     // maven { ... url = 'u'
    | Assignment(property: string) // property = 'v'
    | JavaVersionAssignment(property: string) // property = JavaVersion.VERSION_17

  /** Number of capture groups. */
  function Arity(p: Pattern): nat {
    match p
    case Coordinate(_) => 4
    case ProjectRef(_) => 2
    case _ => 1
  }

  /** The class every character of capture group `g` belongs to. */
  function GroupClass(p: Pattern, g: nat): CharClass {
    match p
    case Coordinate(_) => if g == 0 then Word else if g < 3 then NotQuoteOrColon else NotQuote
    case ProjectRef(_) => if g == 0 then Word else NotQuote
    case Block(_) => NotCloseBrace
    case JavaVersionAssignment(_) => Digit
    case _ => NotQuote
  }

  /** A match: where it starts and ends in the text, and its capture groups `match[1..]`. */
  datatype Match = Match(start: nat, end: nat, groups: seq<string>)

  /** `m` is a match of `p` in `s` that starts at `i`: non-empty, inside `s`, with non-empty groups of the right classes. */
  predicate Fits(p: Pattern, s: string, i: nat, m: Match) {
    && m.start == i < m.end <= |s|
    && |m.groups| == Arity(p)
    && forall g :: 0 <= g < |m.groups| ==> m.groups[g] != [] && AllIn(m.groups[g], GroupClass(p, g))
  }

  /** End of the longest run of class-`k` characters from `i`: a greedy `k*`. */
  function Span(s: string, i: nat, k: CharClass): (j: nat)
    requires i <= |s|
    ensures i <= j <= |s|
    ensures AllIn(s[i..j], k)
    ensures j < |s| ==> !InClass(s[j], k)
    decreases |s| - i
  {
    if i < |s| && InClass(s[i], k) then
      var j := Span(s, i + 1, k);
      assert s[i..j] == [s[i]] + s[i + 1..j];
      j
    else i
  }

  /** `["']([^"']+)["']` at `i`; the quotes need not be the same. */
  function QuotedAt(s: string, i: nat): (r: Option<Match>)
    requires i <= |s|
    ensures r.Some? ==> Fits(Include(false), s, i, r.value)
  {
    if i < |s| && IsQuote(s[i]) then
      var j := Span(s, i + 1, NotQuote);
      if i + 1 < j < |s| then Some(Match(i, j + 1, [s[i + 1..j]])) else None
    else None
  }

  /** `kw\s+["']([^"']+)["']` at `i`. */
  function WordFormAt(s: string, i: nat, kw: string): (r: Option<Match>)
    requires i <= |s|
    ensures r.Some? ==> Fits(Include(false), s, i, r.value)
  {
    if !OccursAt(s, kw, i) then None
    else
      var j := Span(s, i + |kw|, Space);
      if j == i + |kw| then None
      else match QuotedAt(s, j)
        case None => None
        case Some(q) => Some(Match(i, q.end, q.groups))
  }

  /** `kw\s*\(\s*["']([^"']+)["']\s*\)` at `i`. */
  function CallFormAt(s: string, i: nat, kw: string): (r: Option<Match>)
    requires i <= |s|
    ensures r.Some? ==> Fits(Include(false), s, i, r.value)
  {
    if !OccursAt(s, kw, i) then None
    else
      var j := Span(s, i + |kw|, Space);
      if !(j < |s| && s[j] == '(') then None
      else match QuotedAt(s, Span(s, j + 1, Space))
        case None => None
        case Some(q) =>
          var e := Span(s, q.end, Space);
          if e < |s| && s[e] == ')' then Some(Match(i, e + 1, q.groups)) else None
  }

  /** `apply\s+plugin:\s*["']([^"']+)["']` at `i`. */
  function ApplyPluginAt(s: string, i: nat): (r: Option<Match>)
    requires i <= |s|
    ensures r.Some? ==> Fits(ApplyPlugin, s, i, r.value)
  {
    if !OccursAt(s, "apply", i) then None
    else
      var j := Span(s, i + 5, Space);
      if j == i + 5 || !OccursAt(s, "plugin:", j) then None
      else match QuotedAt(s, Span(s, j + 7, Space))
        case None => None
        case Some(q) => Some(Match(i, q.end, q.groups))
  }

  /** `["']([^"':]+):([^"':]+):([^"']+)["']` at `i`: group, name, and a version that may itself contain `:`. */
  function CoordinateTextAt(s: string, i: nat): (r: Option<Match>)
    requires i <= |s|
    ensures r.Some? ==> r.value.start == i < r.value.end <= |s| && |r.value.groups| == 3
    ensures r.Some? ==> forall g :: 0 <= g < 3 ==>
      r.value.groups[g] != [] && AllIn(r.value.groups[g], if g < 2 then NotQuoteOrColon else NotQuote)
  {
    if !(i < |s| && IsQuote(s[i])) then None
    else
      var a := Span(s, i + 1, NotQuoteOrColon);
      if !(i + 1 < a < |s| && s[a] == ':') then None
      else
        var b := Span(s, a + 1, NotQuoteOrColon);
        if !(a + 1 < b < |s| && s[b] == ':') then None
        else
          var c := Span(s, b + 1, NotQuote);
          if !(b + 1 < c < |s|) then None
          else Some(Match(i, c + 1, [s[i + 1..a], s[a + 1..b], s[b + 1..c]]))
  }

  /** `(\w+)` at `i` followed by `\s+` (call form off) or by `\s*\(\s*` (call form on); the index after that. */
  function ConfigurationAt(s: string, i: nat, call: bool): (r: Option<(string, nat)>)
    requires i <= |s|
    ensures r.Some? ==> i < r.value.1 <= |s| && r.value.0 != [] && AllIn(r.value.0, Word)
  {
    var w := Span(s, i, Word);
    if w == i then None
    else
      var j := Span(s, w, Space);
      if !call then (if j == w then None else Some((s[i..w], j)))
      else if j < |s| && s[j] == '(' then Some((s[i..w], Span(s, j + 1, Space)))
      else None
  }

  /** Groovy `(\w+)\s+["']g:n:v["']`, Kotlin `(\w+)\s*\(\s*["']g:n:v["']\s*\)`. */
  function CoordinateAt(s: string, i: nat, kotlin: bool): (r: Option<Match>)
    requires i <= |s|
    ensures r.Some? ==> Fits(Coordinate(kotlin), s, i, r.value)
  {
    match ConfigurationAt(s, i, kotlin)
    case None => None
    case Some((conf, j)) =>
      match CoordinateTextAt(s, j)
      case None => None
      case Some(c) =>
        var groups := [conf] + c.groups;
        assert forall g :: 1 <= g < 4 ==> groups[g] == c.groups[g - 1];
        if !kotlin then Some(Match(i, c.end, groups))
        else
          var e := Span(s, c.end, Space);
          if e < |s| && s[e] == ')' then Some(Match(i, e + 1, groups)) else None
  }

  /** Groovy `(\w+)\s+project\s*\(\s*["']p["']\s*\)`, Kotlin `(\w+)\s*\(\s*project\s*\(\s*["']p["']\s*\)\s*\)`. */
  function ProjectRefAt(s: string, i: nat, kotlin: bool): (r: Option<Match>)
    requires i <= |s|
    ensures r.Some? ==> Fits(ProjectRef(kotlin), s, i, r.value)
  {
    match ConfigurationAt(s, i, kotlin)
    case None => None
    case Some((conf, j)) =>
      match CallFormAt(s, j, "project")
      case None => None
      case Some(c) =>
        var groups := [conf] + c.groups;
        if !kotlin then Some(Match(i, c.end, groups))
        else
          var e := Span(s, c.end, Space);
          if e < |s| && s[e] == ')' then Some(Match(i, e + 1, groups)) else None
  }

  /** `kw\s*\{([^}]+)\}` at `i`: the body ends at the first `}`. */
  function BlockAt(s: string, i: nat, kw: string): (r: Option<Match>)
    requires i <= |s|
    ensures r.Some? ==> Fits(Block(kw), s, i, r.value)
  {
    if !OccursAt(s, kw, i) then None
    else
      var j := Span(s, i + |kw|, Space);
      if !(j < |s| && s[j] == '{') then None
      else
        var e := Span(s, j + 1, NotCloseBrace);
        if j + 1 < e < |s| then Some(Match(i, e + 1, [s[j + 1..e]])) else None
  }

  /** `url\s*[=:]\s*["']([^"']+)["']` at `q`. */
  function UrlAt(s: string, q: nat): (r: Option<Match>)
    requires q <= |s|
    ensures r.Some? ==> Fits(MavenUrl, s, q, r.value)
  {
    if !OccursAt(s, "url", q) then None
    else
      var j := Span(s, q + 3, Space);
      if !(j < |s| && (s[j] == '=' || s[j] == ':')) then None
      else match QuotedAt(s, Span(s, j + 1, Space))
        case None => None
        case Some(u) => Some(Match(q, u.end, u.groups))
  }

  /**
   * The backtracking of a greedy `[^}]*` before `url...`: the candidate
   * positions are tried from `q` down to `lo`, so the LAST `url` of the run
   * that completes a match is taken.
   */
  function LastUrl(s: string, lo: nat, q: nat): (r: Option<Match>)
    requires lo <= q <= |s|
    ensures r.Some? ==> lo <= r.value.start <= q && Fits(MavenUrl, s, r.value.start, r.value)
    ensures r.Some? ==> forall k :: r.value.start < k <= q ==> UrlAt(s, k).None?
    ensures r.None? ==> forall k :: lo <= k <= q ==> UrlAt(s, k).None?
    decreases q - lo
  {
    match UrlAt(s, q)
    case Some(m) => Some(m)
    case None => if q == lo then None else LastUrl(s, lo, q - 1)
  }

  /** `maven\s*\{[^}]*url\s*[=:]\s*["']([^"']+)["']` at `i`. */
  function MavenUrlAt(s: string, i: nat): (r: Option<Match>)
    requires i <= |s|
    ensures r.Some? ==> Fits(MavenUrl, s, i, r.value)
  {
    if !OccursAt(s, "maven", i) then None
    else
      var j := Span(s, i + 5, Space);
      if !(j < |s| && s[j] == '{') then None
      else match LastUrl(s, j + 1, Span(s, j + 1, NotCloseBrace))
        case None => None
        case Some(u) => Some(Match(i, u.end, u.groups))
  }

  /** `name\s*=\s*` at `i`; the index after it. */
  function AssignAt(s: string, i: nat, name: string): (r: Option<nat>)
    requires i <= |s|
    ensures r.Some? ==> i < r.value <= |s|
  {
    if !OccursAt(s, name, i) then None
    else
      var j := Span(s, i + |name|, Space);
      if j < |s| && s[j] == '=' then Some(Span(s, j + 1, Space)) else None
  }

  /** `name\s*=\s*JavaVersion\.VERSION_(\d+)` at `i`. */
  function JavaVersionAt(s: string, i: nat, name: string): (r: Option<Match>)
    requires i <= |s|
    ensures r.Some? ==> Fits(JavaVersionAssignment(name), s, i, r.value)
  {
    match AssignAt(s, i, name)
    case None => None
    case Some(k) =>
      var prefix := "JavaVersion.VERSION_";
      if !OccursAt(s, prefix, k) then None
      else
        var d := Span(s, k + |prefix|, Digit);
        if d == k + |prefix| then None else Some(Match(i, d, [s[k + |prefix|..d]]))
  }

  /** The match of `p` that starts at `i`, if there is one. */
  function MatchAt(p: Pattern, s: string, i: nat): (r: Option<Match>)
    requires i <= |s|
    ensures r.Some? ==> Fits(p, s, i, r.value)
  {
    match p
    case Include(kotlin) => if kotlin then CallFormAt(s, i, "include") else WordFormAt(s, i, "include")
    case PluginId(kotlin) => if kotlin then CallFormAt(s, i, "id") else WordFormAt(s, i, "id")
    case ApplyPlugin => ApplyPluginAt(s, i)
    case KotlinPlugin => CallFormAt(s, i, "kotlin")
    case Coordinate(kotlin) => CoordinateAt(s, i, kotlin)
    case ProjectRef(kotlin) => ProjectRefAt(s, i, kotlin)
    case Block(kw) => BlockAt(s, i, kw)
    case MavenUrl => MavenUrlAt(s, i)
    case Assignment(name) =>
      (match AssignAt(s, i, name)
       case None => None
       case Some(k) =>
         match QuotedAt(s, k)
         case None => None
         case Some(q) => Some(Match(i, q.end, q.groups)))
    case JavaVersionAssignment(name) => JavaVersionAt(s, i, name)
  }

  // ---------------------------------------------------------------- the exec loop, for any scanner

  /** A scanner of a text of length `n`: a match it reports at `i` starts at `i` and ends after it, inside the text. */
  ghost predicate Advances(scan: nat -> Option<Match>, n: nat) {
    forall i: nat :: i <= n && scan(i).Some? ==> scan(i).value.start == i < scan(i).value.end <= n
  }

  /** The first position at or after `from` where `scan` reports a match, with that match. */
  function Search(scan: nat -> Option<Match>, n: nat, from: nat): (r: Option<Match>)
    requires from <= n && Advances(scan, n)
    ensures r.Some? ==> from <= r.value.start <= n && scan(r.value.start) == r
    ensures r.Some? ==> forall i :: from <= i < r.value.start ==> scan(i).None?
    ensures r.None? ==> forall i :: from <= i <= n ==> scan(i).None?
    decreases n - from
  {
    match scan(from)
    case Some(m) => Some(m)
    case None => if from == n then None else Search(scan, n, from + 1)
  }

  /** The matches of successive searches, each starting where the previous match ended. */
  function Collect(scan: nat -> Option<Match>, n: nat, from: nat): seq<Match>
    requires from <= n && Advances(scan, n)
    decreases n - from
  {
    match Search(scan, n, from)
    case None => []
    case Some(m) => [m] + Collect(scan, n, m.end)
  }

  /** One step of collecting: no match ends it, and a match is followed by the matches from its end, which lies further on. */
  lemma CollectUnfold(scan: nat -> Option<Match>, n: nat, from: nat)
    requires from <= n && Advances(scan, n)
    ensures Search(scan, n, from).None? ==> Collect(scan, n, from) == []
    ensures Search(scan, n, from).Some? ==>
      var m := Search(scan, n, from).value;
      from < m.end <= n && Collect(scan, n, from) == [m] + Collect(scan, n, m.end)
  {
  }

  /** Every collected match starts at or after `from` and is what the scanner reports at its start. */
  lemma {:induction false} CollectMatches(scan: nat -> Option<Match>, n: nat, from: nat)
    requires from <= n && Advances(scan, n)
    ensures var ms := Collect(scan, n, from);
      forall k :: 0 <= k < |ms| ==> from <= ms[k].start <= n && scan(ms[k].start) == Some(ms[k])
    decreases n - from
  {
    CollectUnfold(scan, n, from);
    if Search(scan, n, from).Some? {
      var m := Search(scan, n, from).value;
      var rest := Collect(scan, n, m.end);
      CollectMatches(scan, n, m.end);
      var ms := Collect(scan, n, from);
      forall k | 0 < k < |ms| ensures from <= ms[k].start <= n && scan(ms[k].start) == Some(ms[k]) {
        assert ms[k] == rest[k - 1];
      }
    }
  }

  lemma CollectMatchAt(scan: nat -> Option<Match>, n: nat, from: nat, k: nat)
    requires from <= n && Advances(scan, n) && k < |Collect(scan, n, from)|
    ensures var m := Collect(scan, n, from)[k]; from <= m.start <= n && scan(m.start) == Some(m)
  {
    CollectMatches(scan, n, from);
  }

  /** Each match ends at or before the start of every later one. */
  predicate InOrder(ms: seq<Match>) {
    forall k, l :: 0 <= k < l < |ms| ==> ms[k].end <= ms[l].start
  }

  /** The collected matches are in order and do not overlap. */
  lemma {:induction false} CollectOrdered(scan: nat -> Option<Match>, n: nat, from: nat)
    requires from <= n && Advances(scan, n)
    ensures InOrder(Collect(scan, n, from))
    decreases n - from
  {
    CollectUnfold(scan, n, from);
    if Search(scan, n, from).Some? {
      var m := Search(scan, n, from).value;
      CollectOrdered(scan, n, m.end);
      CollectMatches(scan, n, m.end);
      InOrderCons(m, Collect(scan, n, m.end));
    }
  }

  lemma InOrderCons(m: Match, rest: seq<Match>)
    requires InOrder(rest) && forall k :: 0 <= k < |rest| ==> m.end <= rest[k].start
    ensures InOrder([m] + rest)
  {
    var ms := [m] + rest;
    forall k, l | 0 <= k < l < |ms| ensures ms[k].end <= ms[l].start {
      assert ms[l] == rest[l - 1];
      if k > 0 {
        assert ms[k] == rest[k - 1];
      }
    }
  }

  /** The index of the collected match that covers a position where the scanner reports a match. */
  lemma {:induction false} Covering(scan: nat -> Option<Match>, n: nat, from: nat, i: nat) returns (k: nat)
    requires from <= i <= n && Advances(scan, n) && scan(i).Some?
    ensures k < |Collect(scan, n, from)| && Collect(scan, n, from)[k].start <= i < Collect(scan, n, from)[k].end
    decreases n - from
  {
    CollectUnfold(scan, n, from);
    var m := Search(scan, n, from).value;
    if i >= m.end {
      var j := Covering(scan, n, m.end, i);
      k := j + 1;
      assert Collect(scan, n, from)[k] == Collect(scan, n, m.end)[j];
    } else {
      k := 0;
    }
  }

  // ---------------------------------------------------------------- exec over a pattern

  /** The pattern as a scanner of `s`. */
  function Scanner(p: Pattern, s: string): nat -> Option<Match> {
    (i: nat) => if i <= |s| then MatchAt(p, s, i) else None
  }

  lemma ScannerAt(p: Pattern, s: string, i: nat)
    requires i <= |s|
    ensures Scanner(p, s)(i) == MatchAt(p, s, i)
  {
  }

  lemma ScannerAdvances(p: Pattern, s: string)
    ensures Advances(Scanner(p, s), |s|)
  {
    forall i: nat | i <= |s| && Scanner(p, s)(i).Some?
      ensures Scanner(p, s)(i).value.start == i < Scanner(p, s)(i).value.end <= |s|
    {
      assert Scanner(p, s)(i) == MatchAt(p, s, i);
    }
  }

  /**
   * `pattern.exec(s)` with `pattern.lastIndex == from`: the leftmost match
   * that starts at or after `from`; `None` when no position from `from` on
   * starts a match.
   */
  function Exec(p: Pattern, s: string, from: nat): (r: Option<Match>)
    requires from <= |s|
    ensures r.Some? ==> from <= r.value.start <= |s| && MatchAt(p, s, r.value.start) == r
    ensures r.Some? ==> forall i :: from <= i < r.value.start ==> MatchAt(p, s, i).None?
    ensures r.None? ==> forall i :: from <= i <= |s| ==> MatchAt(p, s, i).None?
  {
    ScannerAdvances(p, s);
    SearchMeaning(p, s, from);
    Search(Scanner(p, s), |s|, from)
  }

  lemma SearchMeaning(p: Pattern, s: string, from: nat)
    requires from <= |s| && Advances(Scanner(p, s), |s|)
    ensures var r := Search(Scanner(p, s), |s|, from);
      && (r.Some? ==> from <= r.value.start <= |s| && MatchAt(p, s, r.value.start) == r)
      && (r.Some? ==> forall i :: from <= i < r.value.start ==> MatchAt(p, s, i).None?)
      && (r.None? ==> forall i :: from <= i <= |s| ==> MatchAt(p, s, i).None?)
  {
    var r := Search(Scanner(p, s), |s|, from);
    var hi := if r.Some? then r.value.start - 1 else |s|;
    forall i | from <= i <= hi && i <= |s| ensures MatchAt(p, s, i).None? {
      assert Scanner(p, s)(i).None?;
    }
    if r.Some? {
      assert Scanner(p, s)(r.value.start) == r;
    }
  }

  /**
   * The matches a global `exec` loop collects from `lastIndex == from` on:
   * each next search starts where the previous match ended.
   */
  function Found(p: Pattern, s: string, from: nat): seq<Match>
    requires from <= |s|
  {
    ScannerAdvances(p, s);
    Collect(Scanner(p, s), |s|, from)
  }

  /** One step of the scan: no match ends it, and a match is followed by the scan from its end, which lies further on. */
  lemma FoundUnfold(p: Pattern, s: string, from: nat)
    requires from <= |s|
    ensures Exec(p, s, from).None? ==> Found(p, s, from) == []
    ensures Exec(p, s, from).Some? ==>
      var m := Exec(p, s, from).value;
      from < m.end <= |s| && Found(p, s, from) == [m] + Found(p, s, m.end)
  {
    ScannerAdvances(p, s);
    CollectUnfold(Scanner(p, s), |s|, from);
  }

  /** Every position where the pattern matches lies inside one of the reported matches: the loop misses no occurrence. */
  lemma FoundIsComplete(p: Pattern, s: string, from: nat, i: nat)
    requires from <= i <= |s| && MatchAt(p, s, i).Some?
    ensures exists k :: 0 <= k < |Found(p, s, from)| && Found(p, s, from)[k].start <= i < Found(p, s, from)[k].end
  {
    var k := CoveringMatch(p, s, from, i);
  }

  /** The index of the reported match that covers position `i`. */
  lemma CoveringMatch(p: Pattern, s: string, from: nat, i: nat) returns (k: nat)
    requires from <= i <= |s| && MatchAt(p, s, i).Some?
    ensures k < |Found(p, s, from)| && Found(p, s, from)[k].start <= i < Found(p, s, from)[k].end
  {
    ScannerAdvances(p, s);
    assert Scanner(p, s)(i) == MatchAt(p, s, i);
    k := Covering(Scanner(p, s), |s|, from, i);
  }

  /** The match that covers a matching position carries a non-empty capture of every group. */
  lemma CoveringCapture(p: Pattern, s: string, i: nat, g: nat)
    requires i <= |s| && MatchAt(p, s, i).Some? && g < Arity(p)
    ensures var ms := Found(p, s, 0);
      exists k :: 0 <= k < |ms| && ms[k].start <= i < ms[k].end && Captures(ms, g)[k] == Group(ms[k], g) != []
  {
    var ms := Found(p, s, 0);
    var k := CoveringMatch(p, s, 0, i);
    FoundFitsAt(p, s, 0, k);
  }

  /** Every collected match is the pattern's match at its own start, at or after `from`. */
  lemma FoundMatches(p: Pattern, s: string, from: nat)
    requires from <= |s|
    ensures var ms := Found(p, s, from);
      forall k :: 0 <= k < |ms| ==> from <= ms[k].start <= |s| && MatchAt(p, s, ms[k].start) == Some(ms[k])
  {
    var ms := Found(p, s, from);
    forall k | 0 <= k < |ms| ensures from <= ms[k].start <= |s| && MatchAt(p, s, ms[k].start) == Some(ms[k]) {
      FoundMatchAt(p, s, from, k);
    }
  }

  /** The `k`-th collected match is the pattern's match at its start. */
  lemma FoundMatchAt(p: Pattern, s: string, from: nat, k: nat)
    requires from <= |s| && k < |Found(p, s, from)|
    ensures var m := Found(p, s, from)[k]; from <= m.start <= |s| && MatchAt(p, s, m.start) == Some(m)
  {
    ScannerAdvances(p, s);
    assert Found(p, s, from) == Collect(Scanner(p, s), |s|, from);
    CollectMatchAt(Scanner(p, s), |s|, from, k);
    ScannerAt(p, s, Found(p, s, from)[k].start);
  }

  /** The collected matches are in order and do not overlap. */
  lemma FoundOrdered(p: Pattern, s: string, from: nat)
    requires from <= |s|
    ensures InOrder(Found(p, s, from))
  {
    ScannerAdvances(p, s);
    CollectOrdered(Scanner(p, s), |s|, from);
  }

  /** The `k`-th match of a scan fits the pattern. */
  lemma FoundFitsAt(p: Pattern, s: string, from: nat, k: nat)
    requires from <= |s| && k < |Found(p, s, from)|
    ensures Fits(p, s, Found(p, s, from)[k].start, Found(p, s, from)[k])
  {
    FoundMatchAt(p, s, from, k);
  }

  /** Every match of a global scan fits the pattern. */
  lemma FoundFits(p: Pattern, s: string, from: nat)
    requires from <= |s|
    ensures forall k :: 0 <= k < |Found(p, s, from)| ==> Fits(p, s, Found(p, s, from)[k].start, Found(p, s, from)[k])
  {
    FoundMatches(p, s, from);
  }

  /** Capture group `g` of a match, or "" when it has none. */
  function Group(m: Match, g: nat): string {
    if g < |m.groups| then m.groups[g] else ""
  }

  /** Capture group `g` of each match, in order. */
  function Captures(ms: seq<Match>, g: nat): (r: seq<string>)
    ensures |r| == |ms|
    ensures forall k :: 0 <= k < |ms| ==> r[k] == Group(ms[k], g)
  {
    if |ms| == 0 then [] else [Group(ms[0], g)] + Captures(ms[1..], g)
  }

  /** Every capture of a global scan is a non-empty group of the pattern's class, in order of appearance. */
  lemma CapturesOfFound(p: Pattern, s: string, g: nat)
    requires g < Arity(p)
    ensures forall t :: t in Captures(Found(p, s, 0), g) ==> t != [] && AllIn(t, GroupClass(p, g))
  {
    var ms := Found(p, s, 0);
    forall t | t in Captures(ms, g) ensures t != [] && AllIn(t, GroupClass(p, g)) {
      var k :| 0 <= k < |ms| && Captures(ms, g)[k] == t;
      FoundFits(p, s, 0);
      assert Fits(p, s, ms[k].start, ms[k]);
    }
  }
}
