/**
 * The string operations the crawler relies on: Python's substring test
 * (`a in b`), `str.startswith`, `str.find`, and the `netloc` component that
 * `urllib.parse.urlparse` splits off a URL; and `sep.join(lines)` with the
 * `str.split` that undoes it.
 */
module Strings {

  /** `needle` occurs in `hay` starting at index `i`. */
  predicate OccursAt(hay: string, needle: string, i: int) {
    0 <= i && i + |needle| <= |hay| && hay[i..i + |needle|] == needle
  }

  /** Python's `needle in hay` on two strings: a contiguous occurrence anywhere. */
  function Contains(hay: string, needle: string): (r: bool)
    ensures r <==> exists i :: OccursAt(hay, needle, i)
    decreases |hay|
  {
    if |needle| > |hay| then false
    else if hay[..|needle|] == needle then assert OccursAt(hay, needle, 0); true
    else ShiftOccurrence(hay, needle); Contains(hay[1..], needle)
  }

  /** An occurrence in `hay[1..]` is an occurrence in `hay` one place later, and back. */
  lemma ShiftOccurrence(hay: string, needle: string)
    requires |hay| > 0
    ensures forall i :: OccursAt(hay[1..], needle, i) ==> OccursAt(hay, needle, i + 1)
    ensures forall j :: OccursAt(hay, needle, j) && j > 0 ==> OccursAt(hay[1..], needle, j - 1)
  {
    forall i | OccursAt(hay[1..], needle, i) ensures OccursAt(hay, needle, i + 1) {
      assert hay[1..][i..i + |needle|] == hay[i + 1..i + 1 + |needle|];
    }
    forall j | OccursAt(hay, needle, j) && j > 0 ensures OccursAt(hay[1..], needle, j - 1) {
      assert hay[1..][j - 1..j - 1 + |needle|] == hay[j..j + |needle|];
    }
  }

  /** Python's `s.startswith(prefix)`. */
  predicate StartsWith(s: string, prefix: string) {
    |prefix| <= |s| && s[..|prefix|] == prefix
  }

  /** Python's `s.find(c)` for one character: the first index of `c`, or -1. */
  function Find(s: string, c: char): (i: int)
    ensures -1 <= i < |s|
    ensures i >= 0 ==> s[i] == c && c !in s[..i]
    ensures i == -1 <==> c !in s
  {
    if s == [] then -1
    else if s[0] == c then 0
    else
      var k := Find(s[1..], c);
      assert s[1..][..if k >= 0 then k else 0] == s[1..if k >= 0 then k + 1 else 1];
      if k == -1 then -1 else k + 1
  }

  /** The characters that end the network location of a URL. */
  predicate IsNetlocDelimiter(c: char) {
    c == '/' || c == '?' || c == '#'
  }

  /** The index at which `urllib.parse._splitnetloc` stops: the first '/', '?' or '#', or the end. */
  function NetlocEnd(s: string): (n: nat)
    ensures n <= |s|
    ensures forall k :: 0 <= k < n ==> !IsNetlocDelimiter(s[k])
    ensures n < |s| ==> IsNetlocDelimiter(s[n])
  {
    if s == [] || IsNetlocDelimiter(s[0]) then 0 else 1 + NetlocEnd(s[1..])
  }

  predicate IsAsciiLetter(c: char) {
    ('a' <= c <= 'z') || ('A' <= c <= 'Z')
  }

  /** `urllib.parse.scheme_chars`: ASCII letters, digits, '+', '-' and '.'. */
  predicate IsSchemeChar(c: char) {
    IsAsciiLetter(c) || ('0' <= c <= '9') || c == '+' || c == '-' || c == '.'
  }

  /** The scheme test of `urlsplit`: a non-empty run of scheme characters, starting with a letter, before the first ':'. */
  predicate HasScheme(url: string) {
    var i := Find(url, ':');
    i > 0 && IsAsciiLetter(url[0]) && forall k :: 0 <= k < i ==> IsSchemeChar(url[k])
  }

  /** What `urlsplit` still has to parse once a scheme (if any) and its ':' are removed. */
  function AfterScheme(url: string): (rest: string)
    ensures |rest| <= |url|
  {
    if HasScheme(url) then url[Find(url, ':') + 1..] else url
  }

  /**
   * `urlparse(url).netloc`: the text after a leading "//" (once the scheme is
   * removed) up to the first '/', '?' or '#'; the empty string when there is
   * no "//" authority part.
   */
  function Netloc(url: string): (host: string)
    ensures forall k :: 0 <= k < |host| ==> !IsNetlocDelimiter(host[k])
  {
    var rest := AfterScheme(url);
    if StartsWith(rest, "//") then rest[2..2 + NetlocEnd(rest[2..])] else ""
  }

  /**
   * The host of a URL that the crawler has prefixed with "https://" is the
   * longest delimiter-free prefix of what it prefixed.
   */
  lemma HttpsNetloc(u: string)
    ensures Netloc("https://" + u) == u[..NetlocEnd(u)]
  {
    HttpsAfterScheme(u);
    AuthorityNetloc("https://" + u, u);
  }

  /** When what follows the scheme is "//" + rest, the netloc is the delimiter-free prefix of rest. */
  lemma AuthorityNetloc(url: string, rest: string)
    requires AfterScheme(url) == "//" + rest
    ensures Netloc(url) == rest[..NetlocEnd(rest)]
  {
    assert ("//" + rest)[..2] == "//";
    assert ("//" + rest)[2..] == rest;
  }

  /** Dropping the scheme of an "https://" URL leaves "//" and the rest. */
  lemma HttpsAfterScheme(u: string)
    ensures AfterScheme("https://" + u) == "//" + u
  {
    var url := "https://" + u;
    assert url == "https" + (":" + "//" + u);
    FindAfterPrefix("https", ":" + "//" + u, ':');
    assert HasScheme(url);
  }

  /** Searching past a prefix that does not hold `c`. */
  lemma {:induction false} FindAfterPrefix(p: string, s: string, c: char)
    requires c !in p && |s| > 0 && s[0] == c
    ensures Find(p + s, c) == |p|
  {
    if p != [] {
      assert (p + s)[1..] == p[1..] + s;
      FindAfterPrefix(p[1..], s, c);
    } else {
      assert p + s == s;
    }
  }

  /** A URL with no ':' and no leading "//" (a relative link, or a bare host name) has an empty netloc. */
  lemma SchemelessNetloc(url: string)
    requires ':' !in url && !StartsWith(url, "//")
    ensures Netloc(url) == ""
  {
  }

  /**
   * The crawler's same-site test `hostname in hostname2 or hostname2 in hostname`.
   */
  predicate SameSite(hostname: string, hostname2: string) {
    Contains(hostname2, hostname) || Contains(hostname, hostname2)
  }

  /** The empty netloc of a relative link passes the same-site test for every host. */
  lemma EmptyHostIsSameSite(hostname: string)
    ensures SameSite(hostname, "")
  {
    assert OccursAt(hostname, "", 0);
  }

  /** Python's `sep.join(lines)`. */
  function Join(lines: seq<string>, sep: string): (r: string)
    ensures |lines| > 0 ==> StartsWith(r, lines[0])
  {
    if |lines| == 0 then ""
    else if |lines| == 1 then lines[0]
    else lines[0] + sep + Join(lines[1..], sep)
  }

  /** Python's `s.split(c)` for one character: the pieces between the occurrences of `c`. */
  function Split(s: string, c: char): (parts: seq<string>)
    ensures |parts| > 0
    decreases |s|
  {
    var i := Find(s, c);
    if i < 0 then [s] else [s[..i]] + Split(s[i + 1..], c)
  }

  /** Splitting at `c` undoes joining with `c` when no line holds `c`. */
  lemma {:induction false} SplitJoin(lines: seq<string>, c: char)
    requires |lines| > 0 && forall k :: 0 <= k < |lines| ==> c !in lines[k]
    ensures Split(Join(lines, [c]), c) == lines
  {
    if |lines| == 1 {
      assert Find(lines[0], c) == -1;
    } else {
      assert lines == [lines[0]] + lines[1..];
      JoinCons(lines[0], lines[1..], [c]);
      SplitAfterLine(lines[0], Join(lines[1..], [c]), c);
      SplitJoin(lines[1..], c);
    }
  }

  /** A line free of `c`, then `c`: splitting cuts that line off and goes on with the rest. */
  lemma SplitAfterLine(line: string, rest: string, c: char)
    requires c !in line
    ensures Split(line + [c] + rest, c) == [line] + Split(rest, c)
  {
    var s := line + [c] + rest;
    assert s == line + ([c] + rest);
    FindAfterPrefix(line, [c] + rest, c);
    assert s[..|line|] == line;
    assert s[|line| + 1..] == rest;
  }

  /** Joining the pieces with `c` gives back the string that was split. */
  lemma {:induction false} JoinSplit(s: string, c: char)
    ensures Join(Split(s, c), [c]) == s
    decreases |s|
  {
    var i := Find(s, c);
    if i >= 0 {
      JoinSplit(s[i + 1..], c);
      JoinSplitStep(s, c);
      CutAround(s, i);
    } else {
      assert Split(s, c) == [s];
    }
  }

  /** One piece of the split, then the separator, then the join of the rest. */
  lemma JoinSplitStep(s: string, c: char)
    requires Find(s, c) >= 0
    ensures Join(Split(s, c), [c]) == s[..Find(s, c)] + [c] + Join(Split(s[Find(s, c) + 1..], c), [c])
  {
    SplitAtFind(s, c);
    JoinCons(s[..Find(s, c)], Split(s[Find(s, c) + 1..], c), [c]);
  }

  /** A string is what comes before index `i`, the character at `i`, and what comes after. */
  lemma CutAround(s: string, i: int)
    requires 0 <= i < |s|
    ensures s == s[..i] + [s[i]] + s[i + 1..]
  {
  }

  /** Splitting at a string that holds `c` cuts off the piece before its first occurrence. */
  lemma SplitAtFind(s: string, c: char)
    requires Find(s, c) >= 0
    ensures Split(s, c) == [s[..Find(s, c)]] + Split(s[Find(s, c) + 1..], c)
  {
  }

  /** Joining two or more lines puts the separator after the first. */
  lemma JoinCons(line: string, rest: seq<string>, sep: string)
    requires |rest| > 0
    ensures Join([line] + rest, sep) == line + sep + Join(rest, sep)
  {
    assert ([line] + rest)[1..] == rest;
  }
}
