/**
 * The line parser of the log monitor: `str.strip()` followed by a leftmost
 * `re.search` for
 *
 *     \[HoneyPotSSHTransport,(\d+),([\d.]+)\]\s+(.*)
 *
 * written as pure functions over `seq<char>`.
 *
 * Character classes: whitespace is the set of characters Python's
 * `str.isspace` accepts (the same set `\s` and `strip()` use for `str`);
 * `\d` is taken to be the ASCII digits `0`-`9` only.
 */
module LineParser {
  import opened Wrappers

  /** The three capture groups of one matching line. */
  datatype Event = Event(session: string, ip: string, msg: string)

  /** The literal text that opens a match. */
  const Tag: string := "[HoneyPotSSHTransport,"

  predicate IsDigit(c: char) { '0' <= c <= '9' }

  /** `[\d.]`: a character of the origin address. */
  predicate IsAddressChar(c: char) { IsDigit(c) || c == '.' }

  /** Python's whitespace characters. */
  predicate IsSpace(c: char)
  {
    || '\t' <= c <= '\r'
    || '\U{1C}' <= c <= '\U{1F}'
    || c == ' ' || c == '\U{85}' || c == '\U{A0}' || c == '\U{1680}'
    || '\U{2000}' <= c <= '\U{200A}'
    || c == '\U{2028}' || c == '\U{2029}' || c == '\U{202F}' || c == '\U{205F}' || c == '\U{3000}'
  }

  /** `.`: any character but a newline. */
  predicate NotNewline(c: char) { c != '\n' }

  predicate IsSessionId(s: string) { s != [] && forall k | 0 <= k < |s| :: IsDigit(s[k]) }

  predicate IsAddress(s: string) { s != [] && forall k | 0 <= k < |s| :: IsAddressChar(s[k]) }

  /** A message as the parser yields it from a stripped line. */
  predicate IsMessage(s: string) { s != [] && '\n' !in s && !IsSpace(s[0]) }

  predicate ValidEvent(ev: Event)
  {
    IsSessionId(ev.session) && IsAddress(ev.ip) && IsMessage(ev.msg)
  }

  /** The end of the longest run of characters satisfying `p` that starts at `i`. */
  function Span(s: string, i: nat, p: char -> bool): (j: nat)
    requires i <= |s|
    ensures i <= j <= |s|
    ensures forall k | i <= k < j :: p(s[k])
    ensures j < |s| ==> !p(s[j])
    decreases |s| - i
  {
    if i < |s| && p(s[i]) then Span(s, i + 1, p) else i
  }

  /** The start of the longest run of whitespace that ends at `j` and does not go below `lo`. */
  function SpanBack(s: string, lo: nat, j: nat): (r: nat)
    requires lo <= j <= |s|
    ensures lo <= r <= j
    ensures forall k | r <= k < j :: IsSpace(s[k])
    ensures r > lo ==> !IsSpace(s[r - 1])
    decreases j
  {
    if j > lo && IsSpace(s[j - 1]) then SpanBack(s, lo, j - 1) else j
  }

  /** `r` is `s` with whitespace only (perhaps none) removed before position `i` and after `r`. */
  ghost predicate Padded(s: string, r: string, i: nat)
  {
    && i + |r| <= |s|
    && s[i..i + |r|] == r
    && (forall k | 0 <= k < i :: IsSpace(s[k]))
    && (forall k | i + |r| <= k < |s| :: IsSpace(s[k]))
  }

  /** `str.strip()`: drop the whitespace at both ends. */
  function Strip(s: string): string
  {
    var i := Span(s, 0, IsSpace);
    s[i..SpanBack(s, i, |s|)]
  }

  /**
   * `Strip` removes whitespace only, and exactly as much as there is at each
   * end: what is left is empty, or starts and ends with other characters.
   */
  lemma StripSpec(s: string)
    ensures exists i :: Padded(s, Strip(s), i)
    ensures Strip(s) != [] ==> !IsSpace(Strip(s)[0]) && !IsSpace(Strip(s)[|Strip(s)| - 1])
    ensures Strip(s) == [] <==> forall k | 0 <= k < |s| :: IsSpace(s[k])
  {
    var i := Span(s, 0, IsSpace);
    assert Padded(s, Strip(s), i);
  }

  /** The match attempt of the pattern starting exactly at position `i` of `s`: the tag, then the groups. */
  function MatchAt(s: string, i: nat): Option<Event>
    requires i <= |s|
  {
    var a := i + |Tag|;
    if a > |s| || s[i..a] != Tag then None else SessionFrom(s, a)
  }

  /** `(\d+),` from position `a`: the session digits end at `b`, where a comma must follow. */
  function SessionFrom(s: string, a: nat): Option<Event>
    requires a <= |s|
  {
    var b := Span(s, a, IsDigit);
    if b == a || b == |s| || s[b] != ',' then None else AddressFrom(s, a, b)
  }

  /** `([\d.]+)\]` after the comma at `b`: the address ends at `c`, where a closing bracket must follow. */
  function AddressFrom(s: string, a: nat, b: nat): Option<Event>
    requires a < b < |s|
  {
    var c := Span(s, b + 1, IsAddressChar);
    if c == b + 1 || c == |s| || s[c] != ']' then None else MessageFrom(s, a, b, c)
  }

  /** `\s+(.*)` after the bracket at `c`: at least one whitespace character, then the rest of the line. */
  function MessageFrom(s: string, a: nat, b: nat, c: nat): Option<Event>
    requires a < b < c < |s|
  {
    var d := Span(s, c + 1, IsSpace);
    if d == c + 1 then None
    else Some(Event(s[a..b], s[b + 1..c], s[d..Span(s, d, NotNewline)]))
  }

  lemma SessionFromShape(s: string, a: nat) returns (b: nat)
    requires a <= |s| && SessionFrom(s, a).Some?
    ensures b == Span(s, a, IsDigit)
    ensures a < b < |s| && s[b] == ',' && SessionFrom(s, a) == AddressFrom(s, a, b)
  {
    b := Span(s, a, IsDigit);
  }

  lemma AddressFromShape(s: string, a: nat, b: nat) returns (c: nat)
    requires a < b < |s| && AddressFrom(s, a, b).Some?
    ensures c == Span(s, b + 1, IsAddressChar)
    ensures b + 1 < c < |s| && s[c] == ']' && AddressFrom(s, a, b) == MessageFrom(s, a, b, c)
  {
    c := Span(s, b + 1, IsAddressChar);
  }

  lemma MessageFromShape(s: string, a: nat, b: nat, c: nat) returns (d: nat, e: nat)
    requires a < b < c < |s| && MessageFrom(s, a, b, c).Some?
    ensures d == Span(s, c + 1, IsSpace) && e == Span(s, d, NotNewline)
    ensures c + 1 < d <= e <= |s| && MessageFrom(s, a, b, c) == Some(Event(s[a..b], s[b + 1..c], s[d..e]))
  {
    d := Span(s, c + 1, IsSpace);
    e := Span(s, d, NotNewline);
  }

  /**
   * A successful attempt at `i`, taken apart group by group: the runs end
   * at `b`, `c`, `d` and `e`, and the groups are the slices between them.
   */
  lemma MatchAtShape(s: string, i: nat) returns (b: nat, c: nat, d: nat, e: nat)
    requires i <= |s| && MatchAt(s, i).Some?
    ensures b == Span(s, i + |Tag|, IsDigit) && c == Span(s, b + 1, IsAddressChar)
    ensures d == Span(s, c + 1, IsSpace) && e == Span(s, d, NotNewline)
    ensures i + |Tag| < b && b + 1 < c < |s| && c + 1 < d <= e <= |s|
    ensures s[i..i + |Tag|] == Tag && s[b] == ',' && s[c] == ']'
    ensures MatchAt(s, i) == Some(Event(s[i + |Tag|..b], s[b + 1..c], s[d..e]))
  {
    var a := i + |Tag|;
    assert a <= |s| && s[i..a] == Tag && MatchAt(s, i) == SessionFrom(s, a);
    b := SessionFromShape(s, a);
    c := AddressFromShape(s, a, b);
    d, e := MessageFromShape(s, a, b, c);
  }

  /**
   * Reference reading of the pattern: `s` holds, from `i` on, the tag, the
   * session and address groups, a whitespace run that ends at `d` and that
   * `\s+` cannot extend, then the message.
   */
  ghost predicate MatchesWith(s: string, i: nat, ev: Event, d: nat)
  {
    var a := i + |Tag|;
    var c := a + |ev.session| + 1 + |ev.ip|;
    && a <= |s| && s[i..a] == Tag
    && IdsAt(s, a, ev.session, ev.ip)
    && SpaceRun(s, c + 1, d)
    && MessageAt(s, d, ev.msg)
  }

  /** `(\d+),([\d.]+)\]` at `a`: the session digits, a comma, the address and a closing bracket. */
  ghost predicate IdsAt(s: string, a: nat, session: string, ip: string)
  {
    var b := a + |session|;
    var c := b + 1 + |ip|;
    && c < |s|
    && s[a..b] == session && IsSessionId(session) && s[b] == ','
    && s[b + 1..c] == ip && IsAddress(ip) && s[c] == ']'
  }

  /** `\s+` from `i` ending at `d`: a whitespace run that is not empty and cannot be extended. */
  ghost predicate SpaceRun(s: string, i: nat, d: nat)
  {
    && i < d <= |s|
    && (forall k | i <= k < d :: IsSpace(s[k]))
    && (d == |s| || !IsSpace(s[d]))
  }

  /** `(.*)` at `d`: the message, which `.*` extends up to a newline or the end of the text. */
  ghost predicate MessageAt(s: string, d: nat, msg: string)
  {
    var e := d + |msg|;
    && e <= |s| && s[d..e] == msg && '\n' !in msg
    && (e == |s| || s[e] == '\n')
  }

  ghost predicate MatchesAt(s: string, i: nat, ev: Event)
  {
    exists d :: MatchesWith(s, i, ev, d)
  }

  /** The outcome of the match attempt at every start position `0..|s|`, in order. */
  function Attempts(s: string): seq<Option<Event>>
  {
    seq(|s| + 1, j requires 0 <= j <= |s| => MatchAt(s, j))
  }

  /** `i` is the first index from `from` on that holds a result. */
  ghost predicate FirstSomeAt<T>(rs: seq<Option<T>>, from: nat, i: nat)
  {
    && from <= i < |rs|
    && rs[i].Some?
    && forall j | from <= j < i :: rs[j].None?
  }

  /** The first result from index `from` on, trying indices in increasing order. */
  function FirstSome<T>(rs: seq<Option<T>>, from: nat): (r: Option<T>)
    requires from <= |rs|
    ensures r.None? ==> forall j | from <= j < |rs| :: rs[j].None?
    ensures r.Some? ==> exists i: nat :: FirstSomeAt(rs, from, i) && rs[i] == r
    decreases |rs| - from
  {
    if from == |rs| then None
    else if rs[from].Some? then
      assert FirstSomeAt(rs, from, from);
      rs[from]
    else
      var r := FirstSome(rs, from + 1);
      assert r.Some? ==> exists i: nat :: FirstSomeAt(rs, from, i) && rs[i] == r by {
        if r.Some? {
          var i: nat :| FirstSomeAt(rs, from + 1, i) && rs[i] == r;
          assert FirstSomeAt(rs, from, i);
        }
      }
      r
  }

  /** The first index that holds a result determines what `FirstSome` returns. */
  lemma FirstSomeIs<T>(rs: seq<Option<T>>, from: nat, i: nat)
    requires from <= |rs|
    requires FirstSomeAt(rs, from, i)
    ensures FirstSome(rs, from) == rs[i]
  {
    var r := FirstSome(rs, from);
    if r.Some? {
      var i': nat :| FirstSomeAt(rs, from, i') && rs[i'] == r;
    }
  }

  /** `re.search`: the match at the first start position where the pattern matches. */
  function Search(s: string): Option<Event>
  {
    FirstSome(Attempts(s), 0)
  }

  /** One line of the log stream: strip it, skip it when blank, else search it. */
  function ParseLine(line: string): Option<Event>
  {
    var s := Strip(line);
    if s == [] then None else Search(s)
  }

  /** A line of the shape the pattern expects: the bracketed tag, one space, the message. */
  function Render(ev: Event): string
  {
    Tag + ev.session + "," + ev.ip + "] " + ev.msg
  }

  lemma SpanIs(s: string, i: nat, j: nat, p: char -> bool)
    requires i <= j <= |s|
    requires forall k | i <= k < j :: p(s[k])
    requires j < |s| ==> !p(s[j])
    ensures Span(s, i, p) == j
  {
  }

  /** `MatchAt` computes exactly the match the reference reading describes. */
  lemma MatchAtSound(s: string, i: nat)
    requires i <= |s|
    requires MatchAt(s, i).Some?
    ensures MatchesAt(s, i, MatchAt(s, i).value)
  {
    var b, c, d, e := MatchAtShape(s, i);
    CutsMatch(s, i, b, c, d, e);
  }

  /** Runs that end where the pattern needs them to end spell out a reference match. */
  lemma CutsMatch(s: string, i: nat, b: nat, c: nat, d: nat, e: nat)
    requires i + |Tag| < b && b + 1 < c < |s| && c + 1 < d <= e <= |s|
    requires s[i..i + |Tag|] == Tag && s[b] == ',' && s[c] == ']'
    requires forall k | i + |Tag| <= k < b :: IsDigit(s[k])
    requires forall k | b + 1 <= k < c :: IsAddressChar(s[k])
    requires forall k | c + 1 <= k < d :: IsSpace(s[k])
    requires d < |s| ==> !IsSpace(s[d])
    requires forall k | d <= k < e :: NotNewline(s[k])
    requires e < |s| ==> !NotNewline(s[e])
    ensures MatchesWith(s, i, Event(s[i + |Tag|..b], s[b + 1..c], s[d..e]), d)
  {
    var a := i + |Tag|;
    RunSlice(s, a, b, IsDigit);
    RunSlice(s, b + 1, c, IsAddressChar);
    assert IdsAt(s, a, s[a..b], s[b + 1..c]);
    assert SpaceRun(s, c + 1, d);
    LineRun(s, d, e);
  }

  /** The run of `.` from `d` to `e` is a message in the sense of `(.*)`. */
  lemma LineRun(s: string, d: nat, e: nat)
    requires d <= e <= |s|
    requires forall k | d <= k < e :: NotNewline(s[k])
    requires e < |s| ==> !NotNewline(s[e])
    ensures MessageAt(s, d, s[d..e])
  {
    var msg := s[d..e];
    RunSlice(s, d, e, NotNewline);
    assert '\n' !in msg by {
      forall k | 0 <= k < |msg| ensures msg[k] != '\n' {
        assert NotNewline(msg[k]);
      }
    }
  }

  /** A slice of a run of `p` characters holds only `p` characters. */
  lemma RunSlice(s: string, i: nat, j: nat, p: char -> bool)
    requires i <= j <= |s|
    requires forall k | i <= k < j :: p(s[k])
    ensures forall k | 0 <= k < j - i :: p(s[i..j][k])
  {
  }

  /** A slice equal to `t` inherits every character property `t` has. */
  lemma SliceChars(s: string, a: nat, t: string, p: char -> bool)
    requires a + |t| <= |s| && s[a..a + |t|] == t
    requires forall k | 0 <= k < |t| :: p(t[k])
    ensures forall k | a <= k < a + |t| :: p(s[k])
  {
    forall k | a <= k < a + |t| ensures p(s[k]) {
      assert s[k] == s[a..a + |t|][k - a];
    }
  }

  /** `MatchAt` unfolded, once the four runs are known to end where the groups of `ev` end. */
  lemma MatchAtRuns(s: string, i: nat, ev: Event, b: nat, c: nat, d: nat)
    requires i + |Tag| < b && b + 1 < c < |s| && c + 1 < d <= |s|
    requires s[i..i + |Tag|] == Tag && s[b] == ',' && s[c] == ']'
    requires Span(s, i + |Tag|, IsDigit) == b
    requires Span(s, b + 1, IsAddressChar) == c
    requires Span(s, c + 1, IsSpace) == d
    requires d + |ev.msg| <= |s| && Span(s, d, NotNewline) == d + |ev.msg|
    requires s[i + |Tag|..b] == ev.session && s[b + 1..c] == ev.ip && s[d..d + |ev.msg|] == ev.msg
    ensures MatchAt(s, i) == Some(ev)
  {
    var a := i + |Tag|;
    MessageFromIs(s, a, b, c, ev, d);
    AddressFromIs(s, a, b, c, ev);
    SessionFromIs(s, a, b, ev);
  }

  lemma MessageFromIs(s: string, a: nat, b: nat, c: nat, ev: Event, d: nat)
    requires a < b < c < |s| && s[a..b] == ev.session && s[b + 1..c] == ev.ip
    requires c + 1 < d <= |s| && Span(s, c + 1, IsSpace) == d
    requires d + |ev.msg| <= |s| && s[d..d + |ev.msg|] == ev.msg
    requires Span(s, d, NotNewline) == d + |ev.msg|
    ensures MessageFrom(s, a, b, c) == Some(ev)
  {
  }

  lemma AddressFromIs(s: string, a: nat, b: nat, c: nat, ev: Event)
    requires a < b && b + 1 < c < |s| && s[c] == ']'
    requires Span(s, b + 1, IsAddressChar) == c
    requires MessageFrom(s, a, b, c) == Some(ev)
    ensures AddressFrom(s, a, b) == Some(ev)
  {
  }

  lemma SessionFromIs(s: string, a: nat, b: nat, ev: Event)
    requires a < b < |s| && s[b] == ','
    requires Span(s, a, IsDigit) == b
    requires AddressFrom(s, a, b) == Some(ev)
    ensures SessionFrom(s, a) == Some(ev)
  {
  }

  lemma MatchAtComplete(s: string, i: nat, ev: Event, d: nat)
    requires i <= |s|
    requires MatchesWith(s, i, ev, d)
    ensures MatchAt(s, i) == Some(ev)
  {
    var b, c := MatchCuts(s, i, ev, d);
    MatchAtRuns(s, i, ev, b, c, d);
  }

  /** In a reference match every run of the pattern ends exactly where its group ends. */
  lemma MatchCuts(s: string, i: nat, ev: Event, d: nat) returns (b: nat, c: nat)
    requires MatchesWith(s, i, ev, d)
    ensures i + |Tag| < b && b + 1 < c < |s| && c + 1 < d <= |s|
    ensures s[i..i + |Tag|] == Tag && s[b] == ',' && s[c] == ']'
    ensures Span(s, i + |Tag|, IsDigit) == b
    ensures Span(s, b + 1, IsAddressChar) == c
    ensures Span(s, c + 1, IsSpace) == d
    ensures d + |ev.msg| <= |s| && Span(s, d, NotNewline) == d + |ev.msg|
    ensures s[i + |Tag|..b] == ev.session && s[b + 1..c] == ev.ip && s[d..d + |ev.msg|] == ev.msg
  {
    b, c := IdCuts(s, i + |Tag|, ev.session, ev.ip);
    SpaceCut(s, c + 1, d);
    MessageCut(s, d, ev.msg);
  }

  /** The session digits run up to the comma at `b`, the address characters up to the bracket at `c`. */
  lemma IdCuts(s: string, a: nat, session: string, ip: string) returns (b: nat, c: nat)
    requires IdsAt(s, a, session, ip)
    ensures b == a + |session| && c == b + 1 + |ip|
    ensures a < b && b + 1 < c < |s| && s[b] == ',' && s[c] == ']'
    ensures s[a..b] == session && s[b + 1..c] == ip
    ensures Span(s, a, IsDigit) == b
    ensures Span(s, b + 1, IsAddressChar) == c
  {
    b := a + |session|;
    c := b + 1 + |ip|;
    GroupRun(s, a, session, IsDigit);
    GroupRun(s, b + 1, ip, IsAddressChar);
  }

  /** `\s+` runs exactly over the whitespace run. */
  lemma SpaceCut(s: string, i: nat, d: nat)
    requires SpaceRun(s, i, d)
    ensures i < d <= |s| && Span(s, i, IsSpace) == d
  {
    SpanIs(s, i, d, IsSpace);
  }

  /** `.*` runs over the whole message, up to the newline or the end of the text. */
  lemma MessageCut(s: string, d: nat, msg: string)
    requires MessageAt(s, d, msg)
    ensures d + |msg| <= |s| && s[d..d + |msg|] == msg
    ensures Span(s, d, NotNewline) == d + |msg|
  {
    forall k | 0 <= k < |msg| ensures NotNewline(msg[k]) {
      assert msg[k] in msg;
    }
    GroupRun(s, d, msg, NotNewline);
  }

  /** A group of `p` characters that the text holds at `a`, followed by a stop character, is the run from `a`. */
  lemma GroupRun(s: string, a: nat, t: string, p: char -> bool)
    requires a + |t| <= |s| && s[a..a + |t|] == t
    requires forall k | 0 <= k < |t| :: p(t[k])
    requires a + |t| < |s| ==> !p(s[a + |t|])
    ensures Span(s, a, p) == a + |t|
  {
    SliceChars(s, a, t, p);
    SpanIs(s, a, a + |t|, p);
  }

  lemma MatchAtIff(s: string, i: nat, ev: Event)
    requires i <= |s|
    ensures MatchAt(s, i) == Some(ev) <==> MatchesAt(s, i, ev)
  {
    if MatchAt(s, i) == Some(ev) {
      MatchAtSound(s, i);
    }
    if MatchesAt(s, i, ev) {
      var d: nat :| MatchesWith(s, i, ev, d);
      MatchAtComplete(s, i, ev, d);
    }
  }

  /**
   * In a text that does not end in whitespace, every match has a non-empty
   * message that starts with a non-space character: `\s+` stops at a
   * character that is not whitespace, so not a newline either.
   */
  lemma MatchAtValid(s: string, i: nat)
    requires i <= |s| && MatchAt(s, i).Some?
    requires !IsSpace(s[|s| - 1])
    ensures ValidEvent(MatchAt(s, i).value)
  {
    var b, c, d, e := MatchAtShape(s, i);
    CutsValid(s, i + |Tag|, b, c, d, e);
  }

  /** The groups between runs that end where the pattern needs them to end form a well-formed event. */
  lemma CutsValid(s: string, a: nat, b: nat, c: nat, d: nat, e: nat)
    requires a < b && b + 1 < c && c + 1 < d <= e <= |s|
    requires forall k | a <= k < b :: IsDigit(s[k])
    requires forall k | b + 1 <= k < c :: IsAddressChar(s[k])
    requires forall k | c + 1 <= k < d :: IsSpace(s[k])
    requires d < |s| ==> !IsSpace(s[d])
    requires e == Span(s, d, NotNewline)
    requires !IsSpace(s[|s| - 1])
    ensures ValidEvent(Event(s[a..b], s[b + 1..c], s[d..e]))
  {
    RunSlice(s, a, b, IsDigit);
    RunSlice(s, b + 1, c, IsAddressChar);
    // `\s+` stopped before the last character, which is not whitespace
    assert d < |s| by {
      if d == |s| {
        assert false;
      }
    }
    assert !IsSpace(s[d]) && s[d] != '\n';
    assert d < e;
    LineRun(s, d, e);
  }

  /** No match of the pattern starts before position `i`. */
  ghost predicate NoMatchBefore(s: string, i: nat)
  {
    forall j: nat, ev: Event | j < i :: !MatchesAt(s, j, ev)
  }

  /** The attempt at position `j` succeeds with `ev` exactly when the reference match does. */
  lemma AttemptIff(s: string, j: nat, ev: Event)
    requires j <= |s|
    ensures Attempts(s)[j] == Some(ev) <==> MatchesAt(s, j, ev)
  {
    assert Attempts(s)[j] == MatchAt(s, j);
    MatchAtIff(s, j, ev);
  }

  lemma AttemptValid(s: string, j: nat)
    requires j <= |s| && Attempts(s)[j].Some?
    requires !IsSpace(s[|s| - 1])
    ensures ValidEvent(Attempts(s)[j].value)
  {
    assert Attempts(s)[j] == MatchAt(s, j);
    MatchAtValid(s, j);
  }

  /** A stripped line that is not empty ends in a character that is not whitespace. */
  lemma StripLast(s: string)
    ensures Strip(s) != [] ==> !IsSpace(Strip(s)[|Strip(s)| - 1])
  {
  }

  /** Whatever a line yields is a well-formed event. */
  lemma ParsedEventValid(line: string)
    ensures ParseLine(line).Some? ==> ValidEvent(ParseLine(line).value)
  {
    var s := Strip(line);
    if s != [] {
      StripLast(line);
      SearchValid(s);
    }
  }

  /** In a text that does not end in whitespace, whatever `Search` finds is a well-formed event. */
  lemma SearchValid(s: string)
    requires s != [] && !IsSpace(s[|s| - 1])
    ensures Search(s).Some? ==> ValidEvent(Search(s).value)
  {
    var rs := Attempts(s);
    var r := FirstSome(rs, 0);
    if r.Some? {
      var i: nat :| FirstSomeAt(rs, 0, i) && rs[i] == r;
      AttemptValid(s, i);
    }
  }

  lemma AttemptNoMatch(s: string, j: nat)
    requires j <= |s| && Attempts(s)[j].None?
    ensures forall e :: !MatchesAt(s, j, e)
  {
    forall e ensures !MatchesAt(s, j, e) {
      AttemptIff(s, j, e);
    }
  }

  /** No attempt before `i` succeeds, so no reference match starts before `i`. */
  lemma NoAttemptBefore(s: string, i: nat)
    requires i <= |s|
    requires forall j | 0 <= j < i :: Attempts(s)[j].None?
    ensures NoMatchBefore(s, i)
  {
    forall j: nat, e: Event | j < i ensures !MatchesAt(s, j, e) {
      AttemptNoMatch(s, j);
    }
  }

  /** What `Search` finds is the reference match at the leftmost position where one exists. */
  lemma SearchSound(s: string)
    requires Search(s).Some?
    ensures exists i: nat :: i <= |s| && MatchesAt(s, i, Search(s).value) && NoMatchBefore(s, i)
  {
    var rs := Attempts(s);
    var ev := Search(s).value;
    var i: nat :| FirstSomeAt(rs, 0, i) && rs[i] == Some(ev);
    AttemptIff(s, i, ev);
    NoAttemptBefore(s, i);
  }

  /** Whatever a line yields is the reference match at the leftmost position where one exists. */
  lemma ParseLineSound(line: string)
    ensures var s := Strip(line); ParseLine(line).Some? ==>
      exists i: nat :: i <= |s| && MatchesAt(s, i, ParseLine(line).value) && NoMatchBefore(s, i)
  {
    if ParseLine(line).Some? {
      SearchSound(Strip(line));
    }
  }

  /** A reference match with none before it, in a non-blank stripped line, is what the line yields. */
  lemma ParseLineComplete(line: string, i: nat, ev: Event)
    requires var s := Strip(line); s != [] && i <= |s| && MatchesAt(s, i, ev) && NoMatchBefore(s, i)
    ensures ParseLine(line) == Some(ev)
  {
    var s := Strip(line);
    var rs := Attempts(s);
    AttemptIff(s, i, ev);
    forall j | 0 <= j < i ensures rs[j].None? {
      if rs[j].Some? {
        AttemptIff(s, j, rs[j].value);
      }
    }
    FirstSomeIs(rs, 0, i);
  }

  /** A line yields nothing exactly when it is blank or no position of it matches. */
  lemma ParseLineNone(line: string)
    ensures ParseLine(line).None? <==>
      var s := Strip(line); s == [] || forall j: nat, ev: Event | j <= |s| :: !MatchesAt(s, j, ev)
  {
    var s := Strip(line);
    if s != [] {
      if ParseLine(line).None? {
        forall j: nat, ev: Event | j <= |s| ensures !MatchesAt(s, j, ev) {
          AttemptIff(s, j, ev);
        }
      } else {
        ParseLineSound(line);
        var i: nat :| i <= |s| && MatchesAt(s, i, ParseLine(line).value) && NoMatchBefore(s, i);
        assert !forall j: nat, ev: Event | j <= |s| :: !MatchesAt(s, j, ev);
      }
    }
  }

  /** A line that is empty or all whitespace is skipped. */
  lemma BlankLineSkipped(line: string)
    requires forall k | 0 <= k < |line| :: IsSpace(line[k])
    ensures ParseLine(line) == None
  {
  }

  /** No match can start inside a prefix that holds no `[`. */
  lemma NoMatchInPrefix(prefix: string, rest: string, j: nat)
    requires '[' !in prefix && j < |prefix|
    ensures MatchAt(prefix + rest, j).None?
  {
    var line := prefix + rest;
    assert line[j] == prefix[j];
    assert line[j] != Tag[0];
  }

  /** The rendered event matches where the rendering starts. */
  lemma RenderMatches(prefix: string, ev: Event)
    requires ValidEvent(ev)
    ensures MatchAt(prefix + Render(ev), |prefix|) == Some(ev)
  {
    var d := RenderLayout(prefix, ev);
    MatchAtComplete(prefix + Render(ev), |prefix|, ev, d);
  }

  /** A rendered event is a reference match, with one space before the message. */
  lemma RenderLayout(prefix: string, ev: Event) returns (d: nat)
    requires ValidEvent(ev)
    ensures MatchesWith(prefix + Render(ev), |prefix|, ev, d)
  {
    var line := prefix + Render(ev);
    var p := |prefix|;
    var c := p + |Tag| + |ev.session| + 1 + |ev.ip|;
    d := c + 2;
    assert line[p..] == Render(ev);
    assert line[p..p + |Tag|] == Tag;
    RenderIds(line, p + |Tag|, ev);
    RenderTail(line, c, ev);
  }

  lemma RenderIds(line: string, a: nat, ev: Event)
    requires IsSessionId(ev.session) && IsAddress(ev.ip)
    requires a <= |line| && line[a..] == ev.session + "," + ev.ip + "] " + ev.msg
    ensures IdsAt(line, a, ev.session, ev.ip)
  {
    var b := a + |ev.session|;
    var c := b + 1 + |ev.ip|;
    assert line[a..b] == ev.session;
    assert line[b] == ',';
    assert line[b + 1..] == ev.ip + "] " + ev.msg;
    assert line[b + 1..c] == ev.ip;
    assert line[c] == ']';
  }

  lemma RenderTail(line: string, c: nat, ev: Event)
    requires IsMessage(ev.msg)
    requires c < |line| && line[c..] == "] " + ev.msg
    ensures SpaceRun(line, c + 1, c + 2) && MessageAt(line, c + 2, ev.msg)
  {
    var d := c + 2;
    assert line[c + 1] == ' ';
    assert line[d..] == ev.msg && d + |ev.msg| == |line|;
    assert line[d..d + |ev.msg|] == ev.msg;
  }

  /**
   * Round trip: a well-formed event, written in the shape the pattern expects
   * after a prefix (a timestamp, say) that holds no `[`, parses back to
   * itself, provided its message does not end with whitespace (which
   * `strip()` would remove).
   */
  lemma RenderParses(prefix: string, ev: Event)
    requires ValidEvent(ev) && !IsSpace(ev.msg[|ev.msg| - 1])
    requires '[' !in prefix
    ensures ParseLine(prefix + Render(ev)) == Some(ev)
  {
    var line := prefix + Render(ev);
    var lead := StripRendered(prefix, ev);
    assert '[' !in lead by {
      forall c | c in lead ensures c != '[' { assert c in prefix; }
    }
    RenderSearch(lead, ev);
  }

  /** Stripping a rendered line removes only the whitespace at the start of its prefix. */
  lemma StripRendered(prefix: string, ev: Event) returns (lead: string)
    requires ValidEvent(ev) && !IsSpace(ev.msg[|ev.msg| - 1])
    ensures |lead| <= |prefix| && lead == prefix[|prefix| - |lead|..]
    ensures forall k | 0 <= k < |prefix| - |lead| :: IsSpace(prefix[k])
    ensures lead == [] || !IsSpace(lead[0])
    ensures Strip(prefix + Render(ev)) == lead + Render(ev)
  {
    var body := Render(ev);
    assert body[0] == '[';
    assert body[|body| - 1] == ev.msg[|ev.msg| - 1];
    lead := StripBeforeBody(prefix, body);
  }

  /** Stripping a text that ends with a non-space character drops only its leading whitespace, which ends by `n`. */
  lemma StripFrom(s: string, n: nat) returns (i: nat)
    requires n < |s| && !IsSpace(s[n]) && !IsSpace(s[|s| - 1])
    ensures i <= n
    ensures forall k | 0 <= k < i :: IsSpace(s[k])
    ensures !IsSpace(s[i])
    ensures Strip(s) == s[i..]
  {
    i := Span(s, 0, IsSpace);
    assert SpanBack(s, i, |s|) == |s|;
  }

  /** Stripping a prefix followed by a text with non-space ends drops the prefix's leading whitespace only. */
  lemma StripBeforeBody(prefix: string, body: string) returns (lead: string)
    requires body != [] && !IsSpace(body[0]) && !IsSpace(body[|body| - 1])
    ensures |lead| <= |prefix| && lead == prefix[|prefix| - |lead|..]
    ensures forall k | 0 <= k < |prefix| - |lead| :: IsSpace(prefix[k])
    ensures lead == [] || !IsSpace(lead[0])
    ensures Strip(prefix + body) == lead + body
  {
    var line := prefix + body;
    assert line[|prefix|] == body[0];
    assert line[|line| - 1] == body[|body| - 1];
    var i := StripFrom(line, |prefix|);
    lead := prefix[i..];
    assert line[i..] == lead + body;
    forall k | 0 <= k < i ensures IsSpace(prefix[k]) {
      assert prefix[k] == line[k];
    }
    if lead != [] {
      assert lead[0] == line[i];
    }
  }

  /** The search finds the rendered event: no match starts inside the prefix. */
  lemma RenderSearch(prefix: string, ev: Event)
    requires ValidEvent(ev)
    requires '[' !in prefix
    ensures Search(prefix + Render(ev)) == Some(ev)
  {
    var rs := Attempts(prefix + Render(ev));
    RenderMatches(prefix, ev);
    forall j | 0 <= j < |prefix| ensures rs[j].None? {
      NoMatchInPrefix(prefix, Render(ev), j);
    }
    FirstSomeIs(rs, 0, |prefix|);
  }
}
