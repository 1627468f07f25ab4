/** Looking up a key in a file of `key = value` lines, by cutting the text up in place with
    NUL characters.
 */
module Config {

  const NUL: char := '\0'
  const NEWLINE: char := '\n'

  /** `isspace` in the C locale. */
  predicate IsSpace(c: char) {
    c == ' ' || '\t' <= c <= '\r'
  }

  /** The value found, `""` if the key is absent; a line that is no setting; or the null
      pointer that is followed when the text holds no line at all. */
  datatype Outcome = Value(value: string) | Malformed | NullLine

  // ----- what a text means

  function TrimLeft(s: string): (r: string)
    ensures r != [] ==> !IsSpace(r[0])
  {
    if s != [] && IsSpace(s[0]) then TrimLeft(s[1..]) else s
  }

  function TrimRight(s: string): (r: string)
    ensures r <= s && (r != [] ==> !IsSpace(r[|r| - 1]))
    ensures forall i :: |r| <= i < |s| ==> IsSpace(s[i])
  {
    if s != [] && IsSpace(s[|s| - 1]) then TrimRight(s[..|s| - 1]) else s
  }

  /** The index of the first `c`, or the length. */
  function Find(s: string, c: char): (i: nat)
    ensures i <= |s| && c !in s[..i] && (i < |s| ==> s[i] == c)
  {
    if s == [] || s[0] == c then 0
    else
      var i := Find(s[1..], c) + 1;
      assert s[..i] == [s[0]] + s[1..][..i - 1];
      i
  }

  datatype Parsed = Skip | Bad | Match(value: string)

  /** One line: blank lines, comments and other keys are skipped. */
  function Parse(line: string, key: string): Parsed {
    var l := TrimLeft(line);
    if l == [] || l[0] == '#' then Skip
    else
      var eq := Find(l, '=');
      if eq == |l| then Bad
      else if TrimRight(l[..eq]) != key then Skip
      else Match(TrimRight(TrimLeft(l[eq + 1..])))
  }

  /** The lines of a text, between its newlines. */
  function Lines(text: string): (ls: seq<string>)
    ensures |ls| >= 1
    decreases |text|
  {
    var e := Find(text, NEWLINE);
    if e == |text| then [text] else [text[..e]] + Lines(text[e + 1..])
  }

  /** The first line that is not skipped decides. */
  function Decide(ls: seq<string>, key: string): Outcome {
    if ls == [] then Value("")
    else
      match Parse(ls[0], key)
      case Skip => Decide(ls[1..], key)
      case Bad => Malformed
      case Match(v) => Value(v)
  }

  function Lookup(text: string, key: string): Outcome {
    Decide(Lines(text), key)
  }

  /** No line is decisive before line `i`. */
  ghost predicate SkippedBefore(ls: seq<string>, key: string, i: nat) {
    forall j :: 0 <= j < i && j < |ls| ==> Parse(ls[j], key).Skip?
  }

  /** What deciding means: the value is that of the first matching line with nothing but
      skipped lines before it, the empty string if all are skipped; and the text is malformed
      if a line without `=` comes first. */
  lemma {:induction false} DecideMeans(ls: seq<string>, key: string)
    ensures Decide(ls, key).Malformed? <==>
      exists i :: 0 <= i < |ls| && Parse(ls[i], key).Bad? && SkippedBefore(ls, key, i)
    ensures forall v :: Decide(ls, key) == Value(v) <==>
      || (SkippedBefore(ls, key, |ls|) && v == "")
      || exists i :: 0 <= i < |ls| && Parse(ls[i], key) == Match(v) && SkippedBefore(ls, key, i)
  {
    hide Parse;
    if ls != [] {
      var rest := ls[1..];
      DecideMeans(rest, key);
      if Parse(ls[0], key).Skip? {
        SkipShift(ls, key);
        forall v ensures Decide(ls, key) == Value(v) <==>
          || (SkippedBefore(ls, key, |ls|) && v == "")
          || exists i :: 0 <= i < |ls| && Parse(ls[i], key) == Match(v) && SkippedBefore(ls, key, i)
        {
          if i :| 0 <= i < |ls| && Parse(ls[i], key) == Match(v) && SkippedBefore(ls, key, i) {
            assert Parse(rest[i - 1], key) == Match(v) && SkippedBefore(rest, key, i - 1);
          }
          if i :| 0 <= i < |rest| && Parse(rest[i], key) == Match(v) && SkippedBefore(rest, key, i) {
            assert Parse(ls[i + 1], key) == Match(v) && SkippedBefore(ls, key, i + 1);
          }
        }
        if i :| 0 <= i < |ls| && Parse(ls[i], key).Bad? && SkippedBefore(ls, key, i) {
          assert Parse(rest[i - 1], key).Bad? && SkippedBefore(rest, key, i - 1);
        }
        if i :| 0 <= i < |rest| && Parse(rest[i], key).Bad? && SkippedBefore(rest, key, i) {
          assert Parse(ls[i + 1], key).Bad? && SkippedBefore(ls, key, i + 1);
        }
      } else {
        assert SkippedBefore(ls, key, 0);
        forall i | 0 < i <= |ls| ensures !SkippedBefore(ls, key, i) {
          assert !Parse(ls[0], key).Skip?;
        }
      }
    }
  }

  lemma SkipShift(ls: seq<string>, key: string)
    requires ls != [] && Parse(ls[0], key).Skip?
    ensures forall i: nat :: SkippedBefore(ls, key, i + 1) <==> SkippedBefore(ls[1..], key, i)
  {
  }

  // ----- the three outcomes of a line, on its characters

  /** The six characters that count as space. */
  lemma SixSpaces(c: char)
    ensures IsSpace(c) <==> c == ' ' || c as int in {9, 10, 11, 12, 13}
  {
  }

  ghost predicate Blank(s: string) {
    forall i :: 0 <= i < |s| ==> IsSpace(s[i])
  }

  /** No space at either end. */
  ghost predicate Stripped(s: string) {
    s != [] ==> !IsSpace(s[0]) && !IsSpace(s[|s| - 1])
  }

  lemma {:induction false} TrimLeftOf(a: string, s: string)
    requires Blank(a) && (s != [] ==> !IsSpace(s[0]))
    ensures TrimLeft(a + s) == s
  {
    hide IsSpace;
    if a == [] {
      assert a + s == s;
    } else {
      assert IsSpace(a[0]) && (a + s)[0] == a[0] && (a + s)[1..] == a[1..] + s;
      TrimLeftOf(a[1..], s);
    }
  }

  lemma {:induction false} SpacesInFront(s: string) returns (a: string)
    ensures Blank(a) && s == a + TrimLeft(s)
  {
    hide IsSpace;
    if s == [] || !IsSpace(s[0]) {
      return [];
    }
    a := SpacesInFront(s[1..]);
    a := [s[0]] + a;
  }

  lemma {:induction false} TrimRightOf(s: string, b: string)
    requires Blank(b) && (s != [] ==> !IsSpace(s[|s| - 1]))
    ensures TrimRight(s + b) == s
    decreases |b|
  {
    hide IsSpace;
    if b == [] {
      assert s + b == s;
    } else {
      var n := |b| - 1;
      assert IsSpace(b[n]) && (s + b)[|s + b| - 1] == b[n] && (s + b)[..|s + b| - 1] == s + b[..n];
      TrimRightOf(s, b[..n]);
    }
  }

  lemma BlankTrimmed()
    ensures TrimRight("") == ""
  {
  }

  lemma SpacesBehind(s: string) returns (b: string)
    ensures Blank(b) && s == TrimRight(s) + b
  {
    b := s[|TrimRight(s)|..];
  }

  lemma TrimmedIsStripped(s: string)
    requires s != [] ==> !IsSpace(s[0])
    ensures Stripped(TrimRight(s))
  {
  }

  /** The line sets `k`: spaces, `k`, spaces, `=` and then `rest`. */
  ghost predicate Sets(line: string, a: string, k: string, b: string, rest: string) {
    && line == a + k + b + "=" + rest
    && Blank(a) && Blank(b) && Stripped(k) && '=' !in k && (k != [] ==> k[0] != '#')
  }

  lemma NoEqualInBlank(b: string)
    requires Blank(b)
    ensures '=' !in b
  {
  }

  lemma SettingParsed(line: string, key: string, a: string, k: string, b: string, rest: string)
    requires Sets(line, a, k, b, rest)
    ensures Parse(line, key) == if k != key then Skip else Match(TrimRight(TrimLeft(rest)))
  {
    hide Blank, IsSpace, TrimLeft, TrimRight, Find;
    var front, l := if k == [] then a + b else a, if k == [] then "=" + rest else k + b + "=" + rest;
    assert line == front + l;
    BlankJoined(a, b);
    SixSpaces('=');
    TrimLeftOf(front, l);
    NoEqualInBlank(b);
    var eq := if k == [] then 0 else |k + b|;
    FindIs(l, '=', eq);
    assert l[..eq] == (if k == [] then [] else k + b) && l[eq + 1..] == rest;
    TrimRightOf(k, b);
    BlankTrimmed();
  }

  lemma BlankJoined(a: string, b: string)
    requires Blank(a) && Blank(b)
    ensures Blank(a + b) && Blank([])
  {
  }

  /** A line that has text, is no comment and holds a `=` sets some key. */
  lemma SettingFound(line: string) returns (a: string, k: string, b: string, rest: string)
    requires var l := TrimLeft(line); l != [] && l[0] != '#' && '=' in l
    ensures Sets(line, a, k, b, rest)
  {
    hide Blank, IsSpace, TrimLeft, TrimRight, Find;
    var l := TrimLeft(line);
    var eq := Find(l, '=');
    a := SpacesInFront(line);
    k, rest := TrimRight(l[..eq]), l[eq + 1..];
    b := SpacesBehind(l[..eq]);
    TrimmedIsStripped(l[..eq]);
    assert l == l[..eq] + "=" + rest;
    assert l[..eq] == k + b;
  }

  /** The text of a line starts at the first character that is no space. */
  lemma TextStarts(line: string, i: nat)
    requires i < |line| && Blank(line[..i]) && !IsSpace(line[i])
    ensures TrimLeft(line) == line[i..]
  {
    hide IsSpace, TrimLeft;
    assert line == line[..i] + line[i..];
    TrimLeftOf(line[..i], line[i..]);
  }

  lemma StartOfText(line: string) returns (i: nat)
    ensures i <= |line| && Blank(line[..i]) && TrimLeft(line) == line[i..]
  {
    var a := SpacesInFront(line);
    i := |a|;
    assert line[..i] == a && line[i..] == TrimLeft(line);
  }

  lemma EqualFound(s: string)
    ensures Find(s, '=') == |s| <==> '=' !in s
  {
    if Find(s, '=') == |s| { assert s[..|s|] == s; }
  }

  /** A line is malformed exactly when it has text that is no comment and no `=` follows. */
  lemma BadExactly(line: string, key: string)
    ensures Parse(line, key).Bad? <==>
      exists i :: 0 <= i < |line| && Blank(line[..i]) && !IsSpace(line[i]) && line[i] != '#' && '=' !in line[i..]
  {
    hide IsSpace, TrimLeft, TrimRight, Find, Blank;
    EqualFound(TrimLeft(line));
    if i :| 0 <= i < |line| && Blank(line[..i]) && !IsSpace(line[i]) && line[i] != '#' && '=' !in line[i..] {
      TextStarts(line, i);
    }
    if Parse(line, key).Bad? {
      var i := StartOfText(line);
      assert !IsSpace(line[i]) && line[i] != '#' && '=' !in line[i..];
    }
  }

  /** A line is skipped exactly when it is blank, a comment, or sets another key. */
  lemma SkipExactly(line: string, key: string)
    ensures Parse(line, key).Skip? <==>
      || Blank(line)
      || (exists i :: 0 <= i < |line| && Blank(line[..i]) && line[i] == '#')
      || (exists a, k, b, rest :: Sets(line, a, k, b, rest) && k != key)
  {
    hide IsSpace, TrimLeft, TrimRight, Find, Blank, Sets;
    var l := TrimLeft(line);
    EqualFound(l);
    if Blank(line) {
      assert line + [] == line;
      TrimLeftOf(line, []);
    }
    if i :| 0 <= i < |line| && Blank(line[..i]) && line[i] == '#' {
      SixSpaces('#');
      TextStarts(line, i);
    }
    if a, k, b, rest :| Sets(line, a, k, b, rest) && k != key {
      SettingParsed(line, key, a, k, b, rest);
    }
    if Parse(line, key).Skip? {
      var i := StartOfText(line);
      if l == [] {
        assert line[..i] == line;
      } else if l[0] != '#' {
        var a, k, b, rest := SettingFound(line);
        SettingParsed(line, key, a, k, b, rest);
      }
    }
  }

  /** A line gives the value `v` exactly when it is spaces, the key, spaces, `=`, spaces, `v` and
      spaces, with no space at either end of `v`. */
  lemma MatchExactly(line: string, key: string, v: string)
    ensures Parse(line, key) == Match(v) <==>
      exists a, b, c, d :: Sets(line, a, key, b, c + v + d) && Blank(c) && Blank(d) && Stripped(v)
  {
    hide IsSpace, TrimLeft, TrimRight, Find, Blank, Sets;
    EqualFound(TrimLeft(line));
    if a, b, c, d :| Sets(line, a, key, b, c + v + d) && Blank(c) && Blank(d) && Stripped(v) {
      SettingParsed(line, key, a, key, b, c + v + d);
      StrippedOut(c, v, d);
    }
    if Parse(line, key) == Match(v) {
      var a, k, b, rest := SettingFound(line);
      SettingParsed(line, key, a, k, b, rest);
      var c := SpacesInFront(rest);
      var d := SpacesBehind(TrimLeft(rest));
      TrimmedIsStripped(TrimLeft(rest));
      assert rest == c + v + d;
    }
  }

  lemma StrippedOut(c: string, v: string, d: string)
    requires Blank(c) && Blank(d) && Stripped(v)
    ensures TrimRight(TrimLeft(c + v + d)) == v
  {
    hide IsSpace, TrimLeft, TrimRight, Blank;
    if v == [] {
      BlankJoined(c, d);
      assert c + v + d == (c + d) + [];
      TrimLeftOf(c + d, []);
      BlankTrimmed();
    } else {
      assert c + v + d == c + (v + d);
      TrimLeftOf(c, v + d);
      TrimRightOf(v, d);
    }
  }

  /** The lines joined by newlines are the text, and no line holds one. */
  lemma {:induction false} LinesJoined(text: string)
    ensures Joined(Lines(text)) == text
    ensures forall i :: 0 <= i < |Lines(text)| ==> NEWLINE !in Lines(text)[i]
    decreases |text|
  {
    hide Find;
    var e := Find(text, NEWLINE);
    if e == |text| {
      assert text[..e] == text;
    } else {
      LinesJoined(text[e + 1..]);
      assert Lines(text) == [text[..e]] + Lines(text[e + 1..]);
      hide Lines;
      assert text == text[..e] + [NEWLINE] + text[e + 1..];
    }
  }

  function Joined(ls: seq<string>): string {
    if ls == [] then [] else if |ls| == 1 then ls[0] else ls[0] + [NEWLINE] + Joined(ls[1..])
  }

  // ----- C strings in a buffer

  /** The C string that starts at `p` ends at `e`. */
  ghost predicate StringAt(buf: seq<char>, p: nat, e: nat) {
    p <= e < |buf| && buf[e] == NUL && NUL !in buf[p..e]
  }

  /** `strtok` with the newline as its only delimiter: skips newlines, then cuts the token off.
      Returns no token at the end of the text. */
  method Strtok(buf: array<char>, save: nat, ghost end: nat) returns (found: bool, line: nat, newSave: nat,
                ghost e: nat)
    requires StringAt(buf[..], save, end)
    modifies buf
    ensures forall k :: save <= k < end && (found ==> k < line) ==> old(buf[k]) == NEWLINE
    ensures !found ==> buf[..] == old(buf[..])
    ensures found ==>
      && save <= line < e <= end && NEWLINE !in old(buf[line..e]) && e - line == Find(old(buf[line..end]), NEWLINE)
      && buf[..] == old(buf[..])[e := NUL] && StringAt(buf[..], line, e)
      && (if e < end then old(buf[e]) == NEWLINE && newSave == e + 1 else newSave == end)
      && newSave <= end
  {
    ghost var text := buf[save..end];
    assert forall k :: save <= k < end ==> buf[k] == text[k - save];
    var p := save;
    while buf[p] == NEWLINE
      invariant save <= p <= end
      invariant forall k :: save <= k < p ==> buf[k] == NEWLINE
      decreases end - p
    {
      p := p + 1;
    }
    if buf[p] == NUL {
      return false, p, p, p;
    }
    var q := p;
    while buf[q] != NUL && buf[q] != NEWLINE
      invariant p <= q <= end
      invariant forall k :: p <= k < q ==> buf[k] != NEWLINE
      decreases end - q
    {
      q := q + 1;
    }
    FindIs(buf[p..end], NEWLINE, q - p);
    if buf[q] == NUL {
      newSave := q;
      assert buf[..] == buf[..][q := NUL];
    } else {
      buf[q] := NUL;
      newSave := q + 1;
    }
    found, line, e := true, p, q;
  }

  lemma {:induction false} FindIs(s: string, c: char, i: nat)
    requires i <= |s| && (forall k :: 0 <= k < i ==> s[k] != c) && (i < |s| ==> s[i] == c)
    ensures Find(s, c) == i
  {
  }

  /** `while (*p && isspace(*p)) ++p` */
  method SkipSpace(buf: array<char>, p: nat, ghost e: nat) returns (q: nat)
    requires StringAt(buf[..], p, e)
    ensures p <= q <= e && buf[q..e] == TrimLeft(buf[p..e])
    ensures q < e ==> !IsSpace(buf[q])
  {
    q := p;
    while buf[q] != NUL && IsSpace(buf[q])
      invariant p <= q <= e && TrimLeft(buf[q..e]) == TrimLeft(buf[p..e])
      decreases e - q
    {
      assert q < e;
      assert buf[q..e][1..] == buf[q + 1..e];
      q := q + 1;
    }
  }

  /** `strchr`, as an index. */
  method StrChr(buf: array<char>, p: nat, c: char, ghost e: nat) returns (found: bool, q: nat)
    requires StringAt(buf[..], p, e) && c != NUL
    ensures p <= q <= e && q - p == Find(buf[p..e], c) && found == (q < e)
  {
    q := p;
    while buf[q] != NUL && buf[q] != c
      invariant p <= q <= e && forall k :: p <= k < q ==> buf[k] != c
      decreases e - q
    {
      q := q + 1;
    }
    FindIs(buf[p..e], c, q - p);
    found := buf[q] != NUL;
  }

  /** `while (last > first && isspace(*last)) --last; last[1] = NUL`, starting at the
      character before `e`. What begins at `first` must not begin with a space. */
  method TrimEnd(buf: array<char>, first: nat, e: nat)
    requires first <= e < buf.Length && NUL !in buf[first..e] && (first < e ==> !IsSpace(buf[first]))
    modifies buf
    ensures var k := first + |TrimRight(old(buf[first..e]))|;
      k <= e && buf[..] == old(buf[..])[k := NUL] && StringAt(buf[..], first, k)
      && buf[first..k] == TrimRight(old(buf[first..e]))
  {
    ghost var s := buf[first..e];
    var last: int := e - 1;
    while last > first && IsSpace(buf[last])
      invariant first - 1 <= last < e && (first < e ==> first <= last)
      invariant TrimRight(buf[first..last + 1]) == TrimRight(s)
      decreases last
    {
      assert buf[first..last + 1][..last - first] == buf[first..last];
      last := last - 1;
    }
    assert TrimRight(s) == buf[first..last + 1];
    assert forall k :: first <= k < e ==> buf[k] == s[k - first];
    buf[last + 1] := NUL;
  }

  /** `strcmp(key, p) == 0` */
  method StrEq(buf: array<char>, p: nat, key: string, ghost e: nat) returns (eq: bool)
    requires StringAt(buf[..], p, e) && NUL !in key
    ensures eq <==> buf[p..e] == key
  {
    var i := 0;
    while i < |key| && buf[p + i] == key[i]
      invariant i <= |key| && p + i <= e && buf[p..p + i] == key[..i]
    {
      assert buf[p + i] != NUL;
      assert buf[p..p + i + 1] == key[..i + 1];
      i := i + 1;
    }
    if i == |key| {
      eq := buf[p + i] == NUL;
      if eq { assert p + i == e; assert buf[p..e] == key; }
      else { assert p + i < e; }
    } else {
      eq := false;
      if p + i < e { assert buf[p..e][i] != key[i]; } else { assert e - p < |key|; }
    }
  }

  /** `strlen` */
  method StrLen(buf: array<char>, p: nat, ghost e: nat) returns (n: nat)
    requires StringAt(buf[..], p, e)
    ensures p + n == e
  {
    n := 0;
    while buf[p + n] != NUL
      invariant p + n <= e
      decreases e - (p + n)
    {
      n := n + 1;
    }
  }

  /** `strdup` */
  method StrDup(buf: array<char>, p: nat, ghost e: nat) returns (s: string)
    requires StringAt(buf[..], p, e)
    ensures s == buf[p..e]
  {
    s := [];
    var q := p;
    while buf[q] != NUL
      invariant p <= q <= e && s == buf[p..q]
      decreases e - q
    {
      s := s + [buf[q]];
      q := q + 1;
    }
  }

  /** Nothing outside `lo` to below `hi` has been written. */
  ghost predicate OnlyWithin(before: seq<char>, after: seq<char>, lo: nat, hi: nat) {
    |before| == |after| && forall k :: 0 <= k < |before| && !(lo <= k < hi) ==> after[k] == before[k]
  }

  /** Ends the key before the spaces in front of `=` and compares it. The write may fall on
      the `=` but not behind it. */
  method CutKey(buf: array<char>, l: nat, equal: nat, key: string) returns (same: bool)
    requires l <= equal < buf.Length && NUL !in buf[l..equal] && (l < equal ==> !IsSpace(buf[l])) && NUL !in key
    modifies buf
    ensures same <==> TrimRight(old(buf[l..equal])) == key
    ensures OnlyWithin(old(buf[..]), buf[..], l, equal + 1)
  {
    ghost var k := l + |TrimRight(buf[l..equal])|;
    TrimEnd(buf, l, equal);
    same := StrEq(buf, l, key, k);
  }

  /** The value: the rest of the line without the spaces on either side. */
  method TakeValue(buf: array<char>, from: nat, ghost e: nat) returns (value: string)
    requires StringAt(buf[..], from, e)
    modifies buf
    ensures value == TrimRight(TrimLeft(old(buf[from..e])))
    ensures OnlyWithin(old(buf[..]), buf[..], from, e)
  {
    hide TrimLeft, IsSpace;
    var valStart := SkipSpace(buf, from, e);
    ghost var v := buf[valStart..e];
    assert NUL !in v by { SuffixKeeps(buf[from..e], valStart - from); assert v == buf[from..e][valStart - from..]; }
    var length := StrLen(buf, valStart, e);
    TrimEnd(buf, valStart, valStart + length);
    value := StrDup(buf, valStart, valStart + |TrimRight(v)|);
  }

  lemma SuffixKeeps(s: seq<char>, k: nat)
    requires k <= |s| && NUL !in s
    ensures NUL !in s[k..] && NUL !in s[..k]
  {
  }

  /** A line whose text starts at `l` and that has its `=` at `equal`. */
  method TakeSetting(buf: array<char>, l: nat, equal: nat, ghost e: nat, key: string) returns (r: Parsed)
    requires StringAt(buf[..], l, e) && l <= equal < e && NUL !in key && (l < equal ==> !IsSpace(buf[l]))
    modifies buf
    ensures r == if TrimRight(old(buf[l..equal])) != key then Skip
                 else Match(TrimRight(TrimLeft(old(buf[equal + 1..e]))))
    ensures OnlyWithin(old(buf[..]), buf[..], l, e)
  {
    hide TrimLeft, TrimRight, IsSpace;
    ghost var before := buf[..];
    assert NUL !in buf[l..equal] by {
      SuffixKeeps(buf[l..e], equal - l);
      assert buf[l..equal] == buf[l..e][..equal - l];
    }
    assert NUL !in buf[equal + 1..e] by {
      SuffixKeeps(buf[l..e], equal + 1 - l);
      assert buf[equal + 1..e] == buf[l..e][equal + 1 - l..];
    }
    var same := CutKey(buf, l, equal, key);
    if !same {
      return Skip;
    }
    assert buf[equal + 1..e] == before[equal + 1..e];
    var value := TakeValue(buf, equal + 1, e);
    return Match(value);
  }

  /** What becomes of one line, from `line` to `e`. Only characters of the line are written. */
  method ParseLine(buf: array<char>, line: nat, ghost e: nat, key: string) returns (r: Parsed)
    requires StringAt(buf[..], line, e) && NUL !in key
    modifies buf
    ensures r == Parse(old(buf[line..e]), key)
    ensures OnlyWithin(old(buf[..]), buf[..], line, e)
  {
    hide TrimLeft, TrimRight, IsSpace;
    var l := SkipSpace(buf, line, e);
    ghost var s := buf[l..e];
    SuffixKeeps(buf[line..e], l - line);
    assert s == buf[line..e][l - line..];
    if buf[l] == NUL || buf[l] == '#' {
      return Skip;
    }
    var found, equal := StrChr(buf, l, '=', e);
    if !found {
      return Bad;
    }
    assert buf[l..equal] == s[..equal - l] && buf[equal + 1..e] == s[equal - l + 1..];
    r := TakeSetting(buf, l, equal, e, key);
  }

  // ----- the whole text

  /** The text a C program sees in a buffer: up to the first NUL. */
  function Text(buf: seq<char>): (t: string)
    ensures t <= buf && NUL !in t && (|t| < |buf| ==> buf[|t|] == NUL)
  {
    buf[..Find(buf, NUL)]
  }

  /** Looking up is parsing the first line and, if it is skipped, going on behind it. */
  lemma LookupLine(s: string, key: string)
    ensures var e := Find(s, NEWLINE);
      Lookup(s, key) == match Parse(s[..e], key)
        case Skip => if e < |s| then Lookup(s[e + 1..], key) else Value("")
        case Bad => Malformed
        case Match(v) => Value(v)
  {
    hide Parse, Find, Decide;
    var e := Find(s, NEWLINE);
    DecideHead(Lines(s), key);
    if e == |s| {
      assert s[..e] == s && Lines(s)[0] == s;
      assert Lines(s)[1..] == [];
      DecideNone(key);
    } else {
      assert Lines(s) == [s[..e]] + Lines(s[e + 1..]);
      assert Lines(s)[1..] == Lines(s[e + 1..]);
    }
  }

  lemma DecideHead(ls: seq<string>, key: string)
    requires ls != []
    ensures Decide(ls, key) == match Parse(ls[0], key)
      case Skip => Decide(ls[1..], key)
      case Bad => Malformed
      case Match(v) => Value(v)
  {
  }

  lemma DecideNone(key: string)
    ensures Decide([], key) == Value("")
  {
  }

  /** Leading newlines are empty lines and change nothing. */
  lemma {:induction false} NewlinesSkipped(s: string, k: nat, key: string)
    requires k <= |s| && forall i :: 0 <= i < k ==> s[i] == NEWLINE
    ensures Lookup(s, key) == Lookup(s[k..], key)
    decreases k
  {
    if k == 0 {
      assert s[k..] == s;
    } else {
      assert Find(s, NEWLINE) == 0 && s[..0] == [];
      LookupLine(s, key);
      NewlinesSkipped(s[1..], k - 1, key);
      assert s[1..][k - 1..] == s[k..];
    }
  }

  lemma NothingFound(key: string)
    ensures Lookup([], key) == Value("")
  {
    LookupLine([], key);
  }

  /** The part of the buffer behind `save` is still the original text. */
  ghost predicate Intact(orig: seq<char>, buf: seq<char>, save: nat, end: nat) {
    save <= end < |buf| == |orig| && buf[end] == NUL && forall k :: save <= k < end ==> buf[k] == orig[k] != NUL
  }

  /** The loop has a token in hand: the line from `line` to `e`, cut off, with the text
      behind it untouched. */
  ghost predicate AtLine(orig: seq<char>, buf: seq<char>, line: nat, e: nat, save: nat, end: nat) {
    && |orig| == |buf| && line < e <= end && StringAt(buf, line, e) && end < |buf|
    && buf[line..e] == orig[line..e] && e - line == Find(orig[line..end], NEWLINE)
    && save == (if e < end then e + 1 else end) && Intact(orig, buf, save, end)
  }

  /** `strtok` on the intact rest of the text: the next line, or nothing if only newlines are left. */
  method NextLine(buffer: array<char>, save: nat, ghost orig: seq<char>, ghost end: nat, ghost key: string)
    returns (found: bool, line: nat, newSave: nat, ghost e: nat)
    requires |orig| == buffer.Length && Intact(orig, buffer[..], save, end)
    modifies buffer
    ensures found <==> exists k :: save <= k < end && orig[k] != NEWLINE
    ensures found ==> save <= line && AtLine(orig, buffer[..], line, e, newSave, end)
    ensures Lookup(orig[save..end], key) == if found then Lookup(orig[line..end], key) else Value("")
  {
    hide Lookup, Find, AtLine;
    ghost var rest := orig[save..end];
    assert buffer[save..end] == rest;
    found, line, newSave, e := Strtok(buffer, save, end);
    if found {
      TokenIsLine(orig, old(buffer[..]), buffer[..], save, line, e, newSave, end);
      assert rest[line - save..] == orig[line..end];
      NewlinesSkipped(rest, line - save, key);
    } else {
      NewlinesSkipped(rest, |rest|, key);
      assert rest[|rest|..] == [];
      NothingFound(key);
    }
  }

  /** The token that `strtok` cuts off the intact rest of the text is its next line. */
  lemma TokenIsLine(orig: seq<char>, was: seq<char>, buf: seq<char>, save: nat, line: nat, e: nat, newSave: nat,
                    end: nat)
    requires |orig| == |was| && Intact(orig, was, save, end) && save <= line < e <= end
    requires NEWLINE !in was[line..e] && e - line == Find(was[line..end], NEWLINE)
    requires buf == was[e := NUL] && StringAt(buf, line, e)
    requires newSave == (if e < end then e + 1 else end) && forall k :: save <= k < line ==> was[k] == NEWLINE
    ensures AtLine(orig, buf, line, e, newSave, end) && orig[line] != NEWLINE
    ensures forall k :: save <= k < line ==> orig[k] == NEWLINE
  {
    hide Find;
    assert was[line..e] == orig[line..e] && was[line..end] == orig[line..end];
    assert orig[line] == was[line..e][0];
  }

  lemma LineDone(orig: seq<char>, before: seq<char>, after: seq<char>, line: nat, e: nat, save: nat, end: nat)
    requires AtLine(orig, before, line, e, save, end) && OnlyWithin(before, after, line, e)
    ensures Intact(orig, after, save, end)
  {
  }

  /** The parsing loop refines the specification on every buffer that ends in a NUL. It runs
      into the null pointer exactly when the text has no character but newlines. */
  method GetCfg(buffer: array<char>, key: string) returns (r: Outcome)
    requires buffer.Length > 0 && buffer[buffer.Length - 1] == NUL && NUL !in key
    modifies buffer
    ensures var text := Text(old(buffer[..]));
      r == if forall i :: 0 <= i < |text| ==> text[i] == NEWLINE then NullLine else Lookup(text, key)
  {
    hide Lookup, Parse, Find, OnlyWithin, Intact;
    ghost var orig, end := buffer[..], Find(buffer[..], NUL);
    TextEnds(orig);
    assert orig[0..end] == Text(orig);
    var found, line, save, e := NextLine(buffer, 0, orig, end, key);
    if !found {
      return NullLine;
    }
    while true
      invariant AtLine(orig, buffer[..], line, e, save, end)
      invariant Lookup(orig[0..end], key) == Lookup(orig[line..end], key)
      decreases end - line
    {
      RestOfText(orig, line, e, end, save, key);
      ghost var before := buffer[..];
      var parsed := ParseLine(buffer, line, e, key);
      match parsed {
        case Bad => return Malformed;
        case Match(v) => return Value(v);
        case Skip =>
      }
      LineDone(orig, before, buffer[..], line, e, save, end);
      found, line, save, e := NextLine(buffer, save, orig, end, key);
      if !found {
        return Value("");
      }
    }
  }

  lemma TextEnds(orig: seq<char>)
    requires |orig| > 0 && orig[|orig| - 1] == NUL
    ensures Intact(orig, orig, 0, Find(orig, NUL))
  {
  }

  /** The line in hand decides, or the lookup goes on behind it. */
  lemma RestOfText(orig: seq<char>, line: nat, e: nat, end: nat, save: nat, key: string)
    requires line < e <= end < |orig| && e - line == Find(orig[line..end], NEWLINE)
    requires save == if e < end then e + 1 else end
    ensures Lookup(orig[line..end], key) == match Parse(orig[line..e], key)
      case Skip => Lookup(orig[save..end], key)
      case Bad => Malformed
      case Match(v) => Value(v)
  {
    hide Lookup, Parse, Find;
    var s := orig[line..end];
    LookupLine(s, key);
    assert s[..e - line] == orig[line..e];
    if e < end {
      assert s[e - line + 1..] == orig[save..end];
    } else {
      assert orig[save..end] == [];
      NothingFound(key);
    }
  }
}
