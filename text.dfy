/** String helpers shared by the model: JavaScript's white-space table and
    `trim`, ASCII case-insensitive matching (what a `/i` regular expression
    without the `u` flag does), searching, splitting and joining. */
module Text {

  datatype Option<T> = None | Some(value: T)
  {
    function GetOr(default: T): T
    {
      match this
      case Some(v) => v
      case None => default
    }
  }

  /** The characters JavaScript's `\s` class and `String.prototype.trim` both
      treat as white space: WhiteSpace and LineTerminator of ECMA-262. */
  predicate IsSpace(c: char)
  {
    c == '\t' || c == '\n' || c == '\U{B}' || c == '\U{C}' || c == '\r' || c == ' '
    || c == '\U{A0}' || c == '\U{1680}' || ('\U{2000}' <= c <= '\U{200A}')
    || c == '\U{2028}' || c == '\U{2029}' || c == '\U{202F}' || c == '\U{205F}'
    || c == '\U{3000}' || c == '\U{FEFF}'
  }

  predicate IsTrimmed(s: string)
  {
    |s| == 0 || (!IsSpace(s[0]) && !IsSpace(s[|s| - 1]))
  }

  /** The number of white-space characters `s` starts with. */
  function LeadingSpace(s: string): (n: nat)
    ensures n <= |s|
    ensures forall k :: 0 <= k < n ==> IsSpace(s[k])
    ensures n == |s| || !IsSpace(s[n])
  {
    if |s| > 0 && IsSpace(s[0]) then 1 + LeadingSpace(s[1..]) else 0
  }

  function TrimStart(s: string): (r: string)
    ensures |r| <= |s| && r == s[|s| - |r|..]
    ensures |r| == 0 || !IsSpace(r[0])
    ensures forall k :: 0 <= k < |s| - |r| ==> IsSpace(s[k])
  {
    s[LeadingSpace(s)..]
  }

  function TrimEnd(s: string): (r: string)
    ensures |r| <= |s| && r == s[..|r|]
    ensures |r| == 0 || !IsSpace(r[|r| - 1])
    ensures forall k :: |r| <= k < |s| ==> IsSpace(s[k])
  {
    if |s| > 0 && IsSpace(s[|s| - 1]) then TrimEnd(s[..|s| - 1]) else s
  }

  /** `String.prototype.trim`: drop white space at both ends. The result
      neither starts nor ends with white space (`TrimSlice` says which slice
      of `s` it is). */
  function Trim(s: string): (r: string)
    ensures IsTrimmed(r)
    ensures |r| <= |s|
    ensures forall c :: c in r ==> c in s
  {
    var i := LeadingSpace(s);
    TrimEndAfter(s, i);
    SliceChars(s, i, i + |TrimEnd(s[i..])|);
    TrimEnd(s[i..])
  }

  /** The trimmed text is the slice of `s` that starts after its leading
      white space and is followed only by white space. */
  lemma TrimSlice(s: string)
    ensures var r, i := Trim(s), LeadingSpace(s);
      i + |r| <= |s| && r == s[i..i + |r|]
    ensures var r, i := Trim(s), LeadingSpace(s);
      forall k :: i + |r| <= k < |s| ==> IsSpace(s[k])
  {
    TrimEndAfter(s, LeadingSpace(s));
  }

  lemma TrimEndAfter(s: string, i: nat)
    requires i == LeadingSpace(s)
    ensures i + |TrimEnd(s[i..])| <= |s| && TrimEnd(s[i..]) == s[i..i + |TrimEnd(s[i..])|]
    ensures forall k :: i + |TrimEnd(s[i..])| <= k < |s| ==> IsSpace(s[k])
    ensures IsTrimmed(TrimEnd(s[i..]))
  {
    var a := s[i..];
    var r := TrimEnd(a);
    assert r == a[..|r|];
    forall k | i + |r| <= k < |s| ensures IsSpace(s[k]) {
      assert s[k] == a[k - i];
    }
    if |r| > 0 {
      assert r[0] == s[i];
    }
  }

  lemma SliceChars(s: string, i: nat, j: nat)
    requires i <= j <= |s|
    ensures forall c :: c in s[i..j] ==> c in s
  {
    forall c | c in s[i..j] ensures c in s {
      var k :| 0 <= k < j - i && s[i..j][k] == c;
      assert s[i + k] == c;
    }
  }

  lemma {:induction false} TrimStartOfNonSpace(s: string)
    requires |s| == 0 || !IsSpace(s[0])
    ensures TrimStart(s) == s
  {
  }

  /** Trimming text that is already trimmed changes nothing; in particular
      `Trim` is idempotent. */
  lemma TrimOfTrimmed(s: string)
    requires IsTrimmed(s)
    ensures Trim(s) == s
  {
    TrimStartOfNonSpace(s);
  }

  /** Lower-casing of the ASCII capitals. A `/i` pattern without the `u`
      flag folds non-ASCII letters among themselves, but never matches a
      non-ASCII character against an ASCII one, so for the ASCII patterns of
      this program comparing after `Lower` decides a match exactly. */
  function Lower(c: char): (r: char)
    ensures ('A' <= c <= 'Z') == (r != c)
    ensures 'A' <= c <= 'Z' ==> r as int == c as int + 32
  {
    if 'A' <= c <= 'Z' then (c as int + 32) as char else c
  }

  /** `pat` occurs at offset `i` of `s`, letters compared without case. */
  predicate StartsCI(s: string, i: int, pat: string)
  {
    0 <= i && i + |pat| <= |s| && forall k :: 0 <= k < |pat| ==> Lower(s[i + k]) == Lower(pat[k])
  }

  /** The first offset at or after `from` where `pat` occurs, without case. */
  function FindCI(s: string, pat: string, from: nat): (r: Option<nat>)
    ensures r.Some? ==> from <= r.value && StartsCI(s, r.value, pat)
    ensures r.Some? ==> forall k :: from <= k < r.value ==> !StartsCI(s, k, pat)
    ensures r.None? ==> forall k :: from <= k ==> !StartsCI(s, k, pat)
    decreases |s| - from
  {
    if from + |pat| > |s| then None
    else if StartsCI(s, from, pat) then Some(from)
    else FindCI(s, pat, from + 1)
  }

  /** The first offset at or after `from` holding the character `c`. */
  function FindChar(s: string, c: char, from: nat): (r: Option<nat>)
    ensures r.Some? ==> from <= r.value < |s| && s[r.value] == c
    ensures r.Some? ==> forall k :: from <= k < r.value ==> s[k] != c
    ensures r.None? ==> forall k :: from <= k < |s| ==> s[k] != c
    decreases |s| - from
  {
    if from >= |s| then None
    else if s[from] == c then Some(from)
    else FindChar(s, c, from + 1)
  }

  /** `FindChar` stops at the first occurrence, or reports none. */
  lemma {:induction false} FindCharAt(s: string, c: char, from: nat, i: nat)
    requires from <= i <= |s|
    requires forall k :: from <= k < i ==> s[k] != c
    requires i == |s| || s[i] == c
    ensures FindChar(s, c, from) == if i == |s| then None else Some(i)
    decreases i - from
  {
    if from < i {
      FindCharAt(s, c, from + 1, i);
    }
  }

  /** `s.split(sep)` for a one-character separator: the pieces between the
      separators, empty pieces included. */
  function Split(s: string, sep: char): (parts: seq<string>)
    ensures |parts| >= 1
    ensures forall p :: p in parts ==> sep !in p
    decreases |s|
  {
    match FindChar(s, sep, 0)
    case None => [s]
    case Some(i) => [s[..i]] + Split(s[i + 1..], sep)
  }

  /** `parts.join(sep)`. */
  function Join(parts: seq<string>, sep: string): string
  {
    if |parts| == 0 then ""
    else if |parts| == 1 then parts[0]
    else Join(parts[..|parts| - 1], sep) + sep + parts[|parts| - 1]
  }

  lemma JoinCons(p: string, rest: seq<string>, sep: string)
    requires |rest| > 0
    ensures Join([p] + rest, sep) == p + sep + Join(rest, sep)
    decreases |rest|
  {
    var all := [p] + rest;
    if |rest| > 1 {
      assert all[..|all| - 1] == [p] + rest[..|rest| - 1];
      JoinCons(p, rest[..|rest| - 1], sep);
    } else {
      assert all[..|all| - 1] == [p];
    }
  }

  /** Splitting on a character and joining the pieces with that character gives
      the text back. */
  lemma {:induction false} JoinSplit(s: string, sep: char)
    ensures Join(Split(s, sep), [sep]) == s
    decreases |s|
  {
    match FindChar(s, sep, 0)
    case None =>
    case Some(i) =>
      JoinSplit(s[i + 1..], sep);
      JoinCons(s[..i], Split(s[i + 1..], sep), [sep]);
      assert s == s[..i] + [sep] + s[i + 1..];
  }

  /** Splitting text in which no piece holds the separator gives the pieces
      back. */
  lemma {:induction false} SplitJoin(parts: seq<string>, sep: char)
    requires |parts| >= 1
    requires forall p :: p in parts ==> sep !in p
    ensures Split(Join(parts, [sep]), sep) == parts
    decreases |parts|
  {
    if |parts| > 1 {
      var rest := parts[1..];
      assert parts == [parts[0]] + rest;
      JoinCons(parts[0], rest, [sep]);
      var s := Join(parts, [sep]);
      var i := |parts[0]|;
      assert s[i] == sep;
      assert sep !in parts[0];
      assert forall k :: 0 <= k < i ==> s[k] == parts[0][k] && s[k] != sep;
      FindCharAt(s, sep, 0, i);
      assert s[..i] == parts[0];
      assert s[i + 1..] == Join(rest, [sep]);
      SplitJoin(rest, sep);
    } else {
      assert sep !in parts[0];
      assert forall k :: 0 <= k < |parts[0]| ==> parts[0][k] != sep;
      FindCharAt(parts[0], sep, 0, |parts[0]|);
    }
  }
}
