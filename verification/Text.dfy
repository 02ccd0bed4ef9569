/** Byte strings and the string operations the mail code uses.

    A byte is modelled as a `char`, so a byte string is a `string`; every theorem about
    all strings covers in particular all strings of characters below 256. */
module Text {

  datatype Option<+T> = None | Some(value: T)

  const CRLF := "\r\n"

  /** `pat` occurs in `s` at position `i`. */
  predicate At(s: string, i: nat, pat: string) {
    i <= |s| && pat <= s[i..]
  }

  /** Position `i` is the first at which `pat` occurs in `s`. */
  ghost predicate FirstAt(s: string, i: nat, pat: string) {
    At(s, i, pat) && forall j: nat :: j < i ==> !At(s, j, pat)
  }

  predicate EndsWith(s: string, suffix: string) {
    |suffix| <= |s| && s[|s| - |suffix|..] == suffix
  }

  /** The first position of `pat` in `s` (`find`, `index`, `readuntil`). */
  function Find(s: string, pat: string): (r: Option<nat>)
    ensures r.Some? ==> FirstAt(s, r.value, pat)
    ensures r.None? ==> forall j: nat :: !At(s, j, pat)
  {
    FindFrom(s, pat, 0)
  }

  function FindFrom(s: string, pat: string, i: nat): (r: Option<nat>)
    requires forall j: nat :: j < i ==> !At(s, j, pat)
    ensures r.Some? ==> FirstAt(s, r.value, pat)
    ensures r.None? ==> forall j: nat :: !At(s, j, pat)
    decreases |s| + 1 - i
  {
    if i > |s| then None
    else if At(s, i, pat) then Some(i)
    else FindFrom(s, pat, i + 1)
  }

  /** What is found in a prefix is found at the same place in the whole. */
  lemma FindPrefix(s: string, t: string, pat: string)
    requires Find(s, pat).Some?
    ensures Find(s + t, pat) == Find(s, pat)
  {
    var i := Find(s, pat).value;
    assert (s + t)[i..] == s[i..] + t;
    assert At(s + t, i, pat);
    var r := Find(s + t, pat).value;
    assert r <= i;
    assert (s + t)[r..] == s[r..] + t;
    assert At(s, r, pat);
  }

  lemma CrlfIs(s: string)
    ensures CRLF <= s <==> |s| >= 2 && s[0] == '\r' && s[1] == '\n'
  {
  }

  /** No carriage return stands next to a line feed. */
  predicate NoBreak(line: string) {
    forall k :: 0 <= k < |line| - 1 ==> !(line[k] == '\r' && line[k + 1] == '\n')
  }

  lemma BreakAt(s: string, i: nat)
    ensures At(s, i, CRLF) <==> i + 2 <= |s| && s[i] == '\r' && s[i + 1] == '\n'
  {
    if i <= |s| { CrlfIs(s[i..]); }
  }

  lemma NoBreakIs(line: string)
    ensures NoBreak(line) <==> Find(line, CRLF).None?
  {
    if NoBreak(line) {
      forall i: nat
        ensures !At(line, i, CRLF)
      {
        BreakAt(line, i);
      }
    } else {
      var k: nat :| k + 1 < |line| && line[k] == '\r' && line[k + 1] == '\n';
      BreakAt(line, k);
    }
  }

  /** `s.replace(pat, by)`: every occurrence, left to right, without overlap. */
  function ReplaceAll(s: string, pat: string, rep: string): string
    requires pat != ""
  {
    if s == "" then ""
    else if pat <= s then rep + ReplaceAll(s[|pat|..], pat, rep)
    else [s[0]] + ReplaceAll(s[1..], pat, rep)
  }

  /** `s.split(sep)`: never empty. */
  function Split(s: string, sep: string): (r: seq<string>)
    requires sep != ""
    ensures |r| >= 1
    decreases |s|
  {
    var i := Find(s, sep);
    if i.None? then [s] else [s[..i.value]] + Split(s[i.value + |sep|..], sep)
  }

  /** `sep.join(parts)`. */
  function Join(parts: seq<string>, sep: string): string {
    if parts == [] then "" else parts[0] + JoinRest(parts[1..], sep)
  }

  /** Each part behind a separator. */
  function JoinRest(parts: seq<string>, sep: string): string {
    if parts == [] then "" else sep + parts[0] + JoinRest(parts[1..], sep)
  }

  lemma JoinCons(head: string, parts: seq<string>, sep: string)
    requires parts != []
    ensures Join([head] + parts, sep) == head + sep + Join(parts, sep)
  {
    assert ([head] + parts)[1..] == parts;
  }

  lemma SliceApart(s: string, i: nat, pat: string)
    requires At(s, i, pat)
    ensures i + |pat| <= |s| && s == s[..i] + pat + s[i + |pat|..]
  {
    assert s == s[..i] + s[i..];
    assert s[i..] == pat + s[i..][|pat|..];
    assert s[i..][|pat|..] == s[i + |pat|..];
  }

  lemma {:induction false} JoinSplit(s: string, sep: string)
    requires sep != ""
    ensures Join(Split(s, sep), sep) == s
    decreases |s|
  {
    var i := Find(s, sep);
    if i.Some? {
      var rest := s[i.value + |sep|..];
      JoinSplit(rest, sep);
      SliceApart(s, i.value, sep);
      JoinCons(s[..i.value], Split(rest, sep), sep);
    }
  }

  lemma {:induction false} SplitHasNoBreaks(s: string)
    ensures forall line :: line in Split(s, CRLF) ==> NoBreak(line)
    decreases |s|
  {
    var i := Find(s, CRLF);
    if i.Some? {
      SplitHasNoBreaks(s[i.value + 2..]);
      forall k: nat | k + 1 < i.value
        ensures !(s[k] == '\r' && s[k + 1] == '\n')
      {
        BreakAt(s, k);
        assert !At(s, k, CRLF);
      }
    } else {
      NoBreakIs(s);
    }
  }

  lemma Assoc(a: string, b: string, c: string)
    ensures (a + b) + c == a + (b + c)
  {
  }

  /** CRLF has no border, so the separator after a line without one is the first. */
  lemma FindAfterLine(line: string, rest: string)
    requires NoBreak(line)
    ensures Find(line + CRLF + rest, CRLF) == Some(|line|)
  {
    var s := line + CRLF + rest;
    BreakAt(s, |line|);
    forall j: nat | j < |line|
      ensures !At(s, j, CRLF)
    {
      BreakAt(s, j);
      assert j + 1 == |line| ==> s[j + 1] == '\r';
    }
  }

  /** Splitting on CRLF recovers the parts that were joined, when none contains CRLF. */
  lemma {:induction false} SplitJoin(lines: seq<string>)
    requires |lines| >= 1
    requires forall line :: line in lines ==> NoBreak(line)
    ensures Split(Join(lines, CRLF), CRLF) == lines
    decreases |lines|
  {
    assert lines == [lines[0]] + lines[1..];
    if |lines| > 1 {
      var rest := Join(lines[1..], CRLF);
      JoinCons(lines[0], lines[1..], CRLF);
      FindAfterLine(lines[0], rest);
      var s := lines[0] + CRLF + rest;
      assert s[..|lines[0]|] == lines[0];
      assert s[|lines[0]| + 2..] == rest;
      SplitJoin(lines[1..]);
    } else {
      assert Join(lines, CRLF) == lines[0];
      NoBreakIs(lines[0]);
    }
  }

  // ---------------------------------------------------------------- case and white space, on ASCII

  function LowerChar(c: char): char {
    if 'A' <= c <= 'Z' then c + (32 as char) else c
  }

  function Lower(s: string): (r: string)
    ensures |r| == |s| && forall i :: 0 <= i < |s| ==> r[i] == LowerChar(s[i])
  {
    seq(|s|, i requires 0 <= i < |s| => LowerChar(s[i]))
  }

  /** The letters from A to Z go to those from a to z, and all other characters stay. */
  lemma LowerIs(i: nat, c: char)
    requires i < 26
    ensures LowerChar("ABCDEFGHIJKLMNOPQRSTUVWXYZ"[i]) == "abcdefghijklmnopqrstuvwxyz"[i]
    ensures c !in "ABCDEFGHIJKLMNOPQRSTUVWXYZ" ==> LowerChar(c) == c
  {
    if 'A' <= c <= 'Z' {
      OneOfThem(c);
    }
  }

  lemma OneOfThem(c: char)
    requires 'A' <= c <= 'Z'
    ensures c in "ABCDEFGHIJKLMNOPQRSTUVWXYZ"
  {
    var letters, i := "ABCDEFGHIJKLMNOPQRSTUVWXYZ", (c - 'A') as nat;
    assert letters[i] == c;
  }

  predicate IsBlank(c: char) {
    c == ' ' || '\t' <= c <= '\r' || (28 as char) <= c <= (31 as char)
  }

  /** Python's `s.strip()`. */
  function Strip(s: string): string {
    if s != "" && IsBlank(s[0]) then Strip(s[1..])
    else if s != "" && IsBlank(s[|s| - 1]) then Strip(s[..|s| - 1])
    else s
  }

  predicate AllBlank(s: string) {
    forall i :: 0 <= i < |s| ==> IsBlank(s[i])
  }

  lemma OneBefore(s: string, front: string, middle: string, back: string)
    requires s != "" && s[1..] == front + middle + back
    ensures s == ([s[0]] + front) + middle + back
  {
  }

  lemma OneBehind(s: string, front: string, middle: string, back: string)
    requires s != "" && s[..|s| - 1] == front + middle + back
    ensures s == front + middle + (back + [s[|s| - 1]])
  {
  }

  /** Stripping takes the blanks at both ends, all of them, and nothing else. */
  lemma {:induction false} StripIs(s: string) returns (front: string, back: string)
    ensures s == front + Strip(s) + back && AllBlank(front) && AllBlank(back)
    ensures Strip(s) != "" ==> !IsBlank(Strip(s)[0]) && !IsBlank(Strip(s)[|Strip(s)| - 1])
  {
    if s != "" && IsBlank(s[0]) {
      front, back := StripIs(s[1..]);
      OneBefore(s, front, Strip(s), back);
      front := [s[0]] + front;
    } else if s != "" && IsBlank(s[|s| - 1]) {
      front, back := StripIs(s[..|s| - 1]);
      OneBehind(s, front, Strip(s), back);
      back := back + [s[|s| - 1]];
    } else {
      front, back := "", "";
      assert "" + s + "" == s;
    }
  }

  /** What stands between blanks is what stripping leaves. */
  lemma {:induction false} StripAround(front: string, s: string, back: string)
    requires AllBlank(front) && AllBlank(back) && (s != "" ==> !IsBlank(s[0]) && !IsBlank(s[|s| - 1]))
    ensures Strip(front + s + back) == s
    decreases |front| + |back|
  {
    var whole := front + s + back;
    if front != "" {
      assert whole[1..] == front[1..] + s + back;
      StripAround(front[1..], s, back);
    } else if back != "" {
      assert whole[..|whole| - 1] == front + s + back[..|back| - 1];
      if s == "" {
        assert whole == back && whole[1..] == "" + s + back[1..];
        StripAround("", s, back[1..]);
      } else {
        assert whole[0] == s[0];
        StripAround(front, s, back[..|back| - 1]);
      }
    } else {
      assert whole == s;
    }
  }

  /** `s.strip("-")` */
  function StripDashes(s: string): string {
    if s != "" && s[0] == '-' then StripDashes(s[1..])
    else if s != "" && s[|s| - 1] == '-' then StripDashes(s[..|s| - 1])
    else s
  }

  predicate Contains(s: string, pat: string) {
    Find(s, pat).Some?
  }

  /** The last position of a character (`rfind`, `rpartition`). */
  function LastIndex(s: string, c: char): (r: Option<nat>)
    ensures r.Some? ==> r.value < |s| && s[r.value] == c && forall j :: r.value < j < |s| ==> s[j] != c
    ensures r.None? ==> c !in s
  {
    if s == "" then None
    else if s[|s| - 1] == c then Some(|s| - 1)
    else LastIndex(s[..|s| - 1], c)
  }

  /** The first position of a character (`find`, `partition`). */
  function FirstIndex(s: string, c: char): (r: Option<nat>)
    ensures r.Some? ==> r.value < |s| && s[r.value] == c && forall j :: 0 <= j < r.value ==> s[j] != c
    ensures r.None? ==> c !in s
  {
    if s == "" then None
    else if s[0] == c then Some(0)
    else match FirstIndex(s[1..], c)
         case None => None
         case Some(i) => Some(i + 1)
  }

  lemma LastIndexIsThere(s: string, c: char)
    ensures LastIndex(s, c).Some? <==> c in s
  {
  }

  lemma IndexIsThere(s: string, c: char)
    ensures FirstIndex(s, c).Some? <==> c in s
  {
  }

  /** The two sides of the first occurrence of a character. */
  function CutFirst(s: string, c: char): (r: Option<(string, string)>)
    ensures r.Some? ==> s == r.value.0 + [c] + r.value.1 && c !in r.value.0
    ensures r.None? ==> c !in s
  {
    match FirstIndex(s, c)
    case None => None
    case Some(i) => Some((s[..i], s[i + 1..]))
  }

  /** The two sides of the last occurrence of a character. */
  function CutLast(s: string, c: char): (r: Option<(string, string)>)
    ensures r.Some? ==> s == r.value.0 + [c] + r.value.1 && c !in r.value.1
    ensures r.None? ==> c !in s
  {
    match LastIndex(s, c)
    case None => None
    case Some(i) => Some((s[..i], s[i + 1..]))
  }

  lemma OneFirstCut(s: string, c: char, a: string, b: string)
    requires s == a + [c] + b && c !in a
    ensures CutFirst(s, c) == Some((a, b))
  {
    assert s[|a|] == c;
    assert c in s;
    var i := FirstIndex(s, c).value;
    assert i <= |a|;
    assert forall k :: 0 <= k < |a| ==> s[k] == a[k];
    assert s[..|a|] == a && s[|a| + 1..] == b;
  }

  lemma OneLastCut(s: string, c: char, a: string, b: string)
    requires s == a + [c] + b && c !in b
    ensures CutLast(s, c) == Some((a, b))
  {
    assert s[|a|] == c;
    assert c in s;
    var i := LastIndex(s, c).value;
    assert i >= |a|;
    assert forall k :: |a| < k < |s| ==> s[k] == b[k - |a| - 1];
    assert s[..|a|] == a && s[|a| + 1..] == b;
  }

  lemma FirstIndexAt(front: string, c: char, back: string)
    requires c !in front
    ensures FirstIndex(front + [c] + back, c) == Some(|front|)
    ensures (front + [c] + back)[..|front|] == front && (front + [c] + back)[|front| + 1..] == back
  {
    OneFirstCut(front + [c] + back, c, front, back);
    assert (front + [c] + back)[|front|] == c;
    assert forall k :: 0 <= k < |front| ==> (front + [c] + back)[k] == front[k];
  }
}
