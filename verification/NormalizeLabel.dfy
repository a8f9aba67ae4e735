/** NormalizeLabel (internal/common/utils/utils.go), on strings of arbitrary characters. */
module NormalizeLabel {
  import opened Entities

  /** The tables of Go's unicode package: which lower-case letter a character has, and which are lower-case
      letters and digits. A character is a code point; an undecodable byte counts as U+FFFD. */
  datatype Unicode = Unicode(lower: char -> char, isLower: char -> bool, isDigit: char -> bool)

  predicate IsAscii(c: char) {
    c < 128 as char
  }

  /** The lower-case letters and digits that a label may contain. */
  predicate Alphanumeric(c: char) {
    'a' <= c <= 'z' || '0' <= c <= '9'
  }

  predicate Separator(c: char) {
    c == '-' || c == '_' || c == '.'
  }

  /** The characters that the regular expression leaves in place. */
  predicate Allowed(c: char) {
    Alphanumeric(c) || Separator(c)
  }

  function AsciiLower(c: char): char {
    if 'A' <= c <= 'Z' then (c as int + 32) as char else c
  }

  /** All that is known of the tables: what they say of ASCII. */
  ghost predicate Standard(u: Unicode) {
    forall c: char :: IsAscii(c) ==>
      u.lower(c) == AsciiLower(c) && (u.isLower(c) <==> 'a' <= c <= 'z') && (u.isDigit(c) <==> '0' <= c <= '9')
  }

  function Lower(u: Unicode, s: string): string {
    seq(|s|, i requires 0 <= i < |s| => u.lower(s[i]))
  }

  /** What NormalizeLabel takes for a legal end; outside ASCII it is none for a label. */
  predicate Legal(u: Unicode, c: char) {
    u.isLower(c) || u.isDigit(c)
  }

  ghost predicate HasLegal(u: Unicode, l: string) {
    exists i :: 0 <= i < |l| && Legal(u, l[i])
  }

  function Keep(s: string): string {
    if s == [] then [] else Keep(s[..|s| - 1]) + (if Allowed(s[|s| - 1]) then [s[|s| - 1]] else [])
  }

  /** The string from its first legal character on. */
  function TrimLeft(u: Unicode, s: string): string {
    if s == [] || Legal(u, s[0]) then s else TrimLeft(u, s[1..])
  }

  /** The string up to its last legal character. */
  function TrimRight(u: Unicode, s: string): string {
    if s == [] || Legal(u, s[|s| - 1]) then s else TrimRight(u, s[..|s| - 1])
  }

  /** What the function computes: nothing without a legal character; else the allowed characters between the outermost
      legal ones. */
  ghost function Normalized(u: Unicode, s: string): Option<string> {
    var l := Lower(u, s);
    if HasLegal(u, l) then Some(Keep(TrimRight(u, TrimLeft(u, l)))) else None
  }

  ghost predicate WellFormedLabel(s: string) {
    && s != "" && Alphanumeric(s[0]) && Alphanumeric(s[|s| - 1])
    && forall i :: 0 <= i < |s| ==> Allowed(s[i])
  }

  // ---------- Trimming and slicing ----------

  /** `l` has its first legal character at `first` and its last one at `last`. */
  ghost predicate Outermost(u: Unicode, l: string, first: nat, last: nat) {
    && first <= last < |l| && Legal(u, l[first]) && Legal(u, l[last])
    && (forall i :: 0 <= i < first ==> !Legal(u, l[i]))
    && (forall i :: last < i < |l| ==> !Legal(u, l[i]))
  }

  lemma {:induction false} TrimLeftTo(u: Unicode, l: string, first: nat)
    requires first < |l| && Legal(u, l[first]) && forall i :: 0 <= i < first ==> !Legal(u, l[i])
    ensures TrimLeft(u, l) == l[first..]
    decreases first
  {
    if first > 0 {
      assert forall i :: 0 <= i < first - 1 ==> l[1..][i] == l[i + 1];
      TrimLeftTo(u, l[1..], first - 1);
      assert l[1..][first - 1..] == l[first..];
    } else {
      assert l[0..] == l;
    }
  }

  lemma {:induction false} TrimRightTo(u: Unicode, l: string, last: nat)
    requires last < |l| && Legal(u, l[last]) && forall i :: last < i < |l| ==> !Legal(u, l[i])
    ensures TrimRight(u, l) == l[..last + 1]
    decreases |l|
  {
    if last < |l| - 1 {
      TrimRightTo(u, l[..|l| - 1], last);
      assert l[..|l| - 1][..last + 1] == l[..last + 1];
    } else {
      assert l[..last + 1] == l;
    }
  }

  /** Slicing from the first legal character to the last is trimming both ends. */
  lemma SliceIsTrim(u: Unicode, l: string, first: nat, last: nat)
    requires Outermost(u, l, first, last)
    ensures HasLegal(u, l)
    ensures TrimRight(u, TrimLeft(u, l)) == l[first..last + 1]
  {
    TrimLeftTo(u, l, first);
    var r := l[first..];
    assert forall i :: last - first < i < |r| ==> r[i] == l[first + i];
    TrimRightTo(u, r, last - first);
    assert r[..last - first + 1] == l[first..last + 1];
  }

  lemma FirstLegal(u: Unicode, l: string, from: nat) returns (first: nat)
    requires from <= |l| && exists i :: from <= i < |l| && Legal(u, l[i])
    requires forall i :: 0 <= i < from ==> !Legal(u, l[i])
    ensures first < |l| && Legal(u, l[first]) && forall i :: 0 <= i < first ==> !Legal(u, l[i])
    decreases |l| - from
  {
    if Legal(u, l[from]) {
      first := from;
    } else {
      first := FirstLegal(u, l, from + 1);
    }
  }

  lemma LastLegal(u: Unicode, l: string, end: nat) returns (last: nat)
    requires end <= |l| && exists i :: 0 <= i < end && Legal(u, l[i])
    requires forall i :: end <= i < |l| ==> !Legal(u, l[i])
    ensures last < |l| && Legal(u, l[last]) && forall i :: last < i < |l| ==> !Legal(u, l[i])
    decreases end
  {
    if Legal(u, l[end - 1]) {
      last := end - 1;
    } else {
      last := LastLegal(u, l, end - 1);
    }
  }

  lemma OutermostOf(u: Unicode, l: string) returns (first: nat, last: nat)
    requires HasLegal(u, l)
    ensures Outermost(u, l, first, last)
  {
    first := FirstLegal(u, l, 0);
    last := LastLegal(u, l, |l|);
  }

  // ---------- Filtering ----------

  lemma {:induction false} KeepConcat(a: string, b: string)
    ensures Keep(a + b) == Keep(a) + Keep(b)
    decreases |b|
  {
    if b == [] {
      assert a + b == a;
    } else {
      assert (a + b)[..|a + b| - 1] == a + b[..|b| - 1];
      KeepConcat(a, b[..|b| - 1]);
    }
  }

  /** Which characters survive: with KeepConcat, this is what filtering makes of any string, character by character. */
  lemma KeepOne(c: char)
    ensures Keep([c]) == if 'a' <= c <= 'z' || '0' <= c <= '9' || c == '-' || c == '_' || c == '.' then [c] else []
  {
    assert [c][..0] == [];
  }

  lemma {:induction false} KeepAllowed(s: string)
    ensures forall i :: 0 <= i < |Keep(s)| ==> Allowed(Keep(s)[i])
    ensures (forall i :: 0 <= i < |s| ==> Allowed(s[i])) ==> Keep(s) == s
    decreases |s|
  {
    if s != [] {
      KeepAllowed(s[..|s| - 1]);
      assert s == s[..|s| - 1] + [s[|s| - 1]];
    }
  }

  lemma {:induction false} KeepNone(s: string)
    requires forall k :: 0 <= k < |s| ==> !Allowed(s[k])
    ensures Keep(s) == []
    decreases |s|
  {
    if s != [] {
      KeepNone(s[..|s| - 1]);
    }
  }

  lemma {:induction false} KeepFirst(s: string, i: nat)
    requires i < |s| && Allowed(s[i]) && forall k :: 0 <= k < i ==> !Allowed(s[k])
    ensures Keep(s) != [] && Keep(s)[0] == s[i]
    decreases |s|
  {
    if i < |s| - 1 {
      KeepFirst(s[..|s| - 1], i);
    } else {
      KeepNone(s[..|s| - 1]);
    }
  }

  lemma {:induction false} KeepLast(s: string, j: nat)
    requires j < |s| && Allowed(s[j]) && forall k :: j < k < |s| ==> !Allowed(s[k])
    ensures Keep(s) != [] && Keep(s)[|Keep(s)| - 1] == s[j]
    decreases |s|
  {
    if j < |s| - 1 {
      KeepLast(s[..|s| - 1], j);
    }
  }

  // ---------- When the result is a well-formed label ----------

  ghost predicate Encloses(u: Unicode, l: string, i: nat, j: nat) {
    && i <= j < |l| && Alphanumeric(l[i]) && Alphanumeric(l[j])
    && (forall a, k :: 0 <= a < k < i && Legal(u, l[a]) ==> !Separator(l[k]))
    && (forall k, b :: j < k < b < |l| && Legal(u, l[b]) ==> !Separator(l[k]))
  }

  /** Between its outermost legal characters the string has ASCII letters or digits, and no separator outside of them. */
  ghost predicate SeparatorsInside(u: Unicode, l: string) {
    exists i, j :: Encloses(u, l, i, j)
  }

  lemma FirstAllowed(s: string) returns (i: nat)
    requires exists k :: 0 <= k < |s| && Allowed(s[k])
    ensures i < |s| && Allowed(s[i]) && forall k :: 0 <= k < i ==> !Allowed(s[k])
  {
    i := 0;
    while !Allowed(s[i])
      invariant i < |s| && (forall k :: 0 <= k < i ==> !Allowed(s[k])) && exists k :: i <= k < |s| && Allowed(s[k])
      decreases |s| - i
    {
      i := i + 1;
    }
  }

  lemma LastAllowed(s: string) returns (j: nat)
    requires exists k :: 0 <= k < |s| && Allowed(s[k])
    ensures j < |s| && Allowed(s[j]) && forall k :: j < k < |s| ==> !Allowed(s[k])
  {
    j := |s| - 1;
    while !Allowed(s[j])
      invariant j < |s| && (forall k :: j < k < |s| ==> !Allowed(s[k])) && exists k :: 0 <= k <= j && Allowed(s[k])
      decreases j
    {
      j := j - 1;
    }
  }

  /** The allowed characters of the string start at `i` and end at `j`, with a letter or digit each. */
  ghost predicate PlainEnds(m: string, i: nat, j: nat) {
    && i <= j < |m| && Alphanumeric(m[i]) && Alphanumeric(m[j])
    && (forall k :: 0 <= k < i ==> !Separator(m[k]))
    && (forall k :: j < k < |m| ==> !Separator(m[k]))
  }

  lemma FirstAlphanumeric(m: string, i0: nat, j: nat) returns (i: nat)
    requires PlainEnds(m, i0, j)
    ensures i <= i0 && Alphanumeric(m[i]) && forall k :: 0 <= k < i ==> !Allowed(m[k])
  {
    i := FirstAllowed(m);
  }

  lemma LastAlphanumeric(m: string, i: nat, j0: nat) returns (j: nat)
    requires PlainEnds(m, i, j0)
    ensures j0 <= j < |m| && Alphanumeric(m[j]) && forall k :: j < k < |m| ==> !Allowed(m[k])
  {
    j := LastAllowed(m);
  }

  /** What is kept of a string is a well-formed label exactly when its outermost allowed characters are no separators. */
  lemma KeepWellFormed(m: string)
    ensures WellFormedLabel(Keep(m)) <==> exists i, j :: PlainEnds(m, i, j)
  {
    KeepAllowed(m);
    if i0, j0 :| PlainEnds(m, i0, j0) {
      var i := FirstAlphanumeric(m, i0, j0);
      var j := LastAlphanumeric(m, i0, j0);
      KeepFirst(m, i);
      KeepLast(m, j);
    } else if exists k :: 0 <= k < |m| && Allowed(m[k]) {
      var i := FirstAllowed(m);
      var j := LastAllowed(m);
      KeepFirst(m, i);
      KeepLast(m, j);
      if WellFormedLabel(Keep(m)) {
        assert PlainEnds(m, i, j);
      }
    } else {
      KeepNone(m);
    }
  }

  lemma NoSeparatorIsLegal(u: Unicode, c: char)
    requires Standard(u)
    ensures Separator(c) ==> !Legal(u, c)
    ensures Alphanumeric(c) ==> Legal(u, c)
    ensures IsAscii(c) && Legal(u, c) ==> Alphanumeric(c)
  {
    assert Allowed(c) ==> IsAscii(c);
  }

  lemma SliceOfEnclosed(u: Unicode, l: string, first: nat, last: nat, i: nat, j: nat)
    requires Standard(u) && Outermost(u, l, first, last) && Encloses(u, l, i, j)
    ensures first <= i <= j <= last && PlainEnds(l[first..last + 1], i - first, j - first)
  {
    NoSeparatorIsLegal(u, l[i]);
    NoSeparatorIsLegal(u, l[j]);
    NoSeparatorIsLegal(u, l[first]);
    NoSeparatorIsLegal(u, l[last]);
    var m := l[first..last + 1];
    assert forall k :: 0 <= k < |m| ==> m[k] == l[first + k];
    forall k | 0 <= k < i - first ensures !Separator(m[k]) {
      assert k > 0 ==> !Separator(l[first + k]);
    }
    forall k | j - first < k < |m| ensures !Separator(m[k]) {
      assert first + k < last ==> !Separator(l[first + k]);
    }
  }

  lemma EnclosedOfSlice(u: Unicode, l: string, first: nat, last: nat, i: nat, j: nat)
    requires Outermost(u, l, first, last) && PlainEnds(l[first..last + 1], i, j)
    ensures Encloses(u, l, first + i, first + j)
  {
    var m := l[first..last + 1];
    assert forall k :: first <= k <= last ==> l[k] == m[k - first];
  }

  /** Exactly when the result is a well-formed label, read off the lower-case string. */
  lemma WellFormedExactly(u: Unicode, s: string)
    requires Standard(u) && HasLegal(u, Lower(u, s))
    ensures WellFormedLabel(Normalized(u, s).value) <==> SeparatorsInside(u, Lower(u, s))
  {
    var l := Lower(u, s);
    var first, last := OutermostOf(u, l);
    var m := l[first..last + 1];
    SliceIsTrim(u, l, first, last);
    KeepWellFormed(m);
    if SeparatorsInside(u, l) {
      var i, j :| Encloses(u, l, i, j);
      SliceOfEnclosed(u, l, first, last, i, j);
    }
    if i, j :| PlainEnds(m, i, j) {
      EnclosedOfSlice(u, l, first, last, i, j);
    }
  }

  // ---------- The function ----------

  lemma LegalExactly(u: Unicode, s: string)
    ensures HasLegal(u, Lower(u, s)) <==>
            exists i :: 0 <= i < |s| && (u.isLower(u.lower(s[i])) || u.isDigit(u.lower(s[i])))
  {
    var l := Lower(u, s);
    forall i | 0 <= i < |s| ensures Legal(u, l[i]) <==> u.isLower(u.lower(s[i])) || u.isDigit(u.lower(s[i])) {
    }
    if i :| 0 <= i < |s| && (u.isLower(u.lower(s[i])) || u.isDigit(u.lower(s[i]))) {
      assert Legal(u, l[i]);
    }
  }

  method IndexOfLegal(u: Unicode, s: string) returns (index: int)
    ensures -1 <= index < |s|
    ensures index == -1 <==> !HasLegal(u, s)
    ensures index >= 0 ==> Legal(u, s[index]) && forall i :: 0 <= i < index ==> !Legal(u, s[i])
  {
    for k := 0 to |s|
      invariant forall i :: 0 <= i < k ==> !Legal(u, s[i])
    {
      if Legal(u, s[k]) {
        return k;
      }
    }
    return -1;
  }

  method LastIndexOfLegal(u: Unicode, s: string) returns (index: int)
    ensures -1 <= index < |s|
    ensures index == -1 <==> !HasLegal(u, s)
    ensures index >= 0 ==> Legal(u, s[index]) && forall i :: index < i < |s| ==> !Legal(u, s[i])
  {
    for k := |s| downto 0
      invariant forall i :: k <= i < |s| ==> !Legal(u, s[i])
    {
      if Legal(u, s[k]) {
        return k;
      }
    }
    return -1;
  }

  method RemoveDisallowed(s: string) returns (r: string)
    ensures r == Keep(s)
  {
    r := "";
    for i := 0 to |s|
      invariant r == Keep(s[..i])
    {
      assert s[..i + 1][..i] == s[..i];
      if Allowed(s[i]) {
        r := r + [s[i]];
      }
    }
    assert s[..|s|] == s;
  }

  /** Fails exactly when the lower-case string has no lower-case letter or digit, as in scripts without
      case. Otherwise the result has allowed characters only, and is a well-formed label exactly when no separator stands
      outside the ASCII letters and digits of the slice. Slicing goes by bytes and may cut the last character; what is left of it is filtered out like the whole. */
  method NormalizeLabel(u: Unicode, given: string) returns (result: Option<string>)
    requires Standard(u)
    ensures result == Normalized(u, given)
    ensures result.None? <==>
            forall i :: 0 <= i < |given| ==> !u.isLower(u.lower(given[i])) && !u.isDigit(u.lower(given[i]))
    ensures result.Some? ==> forall i :: 0 <= i < |result.value| ==> Allowed(result.value[i])
    ensures result.Some? ==> (WellFormedLabel(result.value) <==> SeparatorsInside(u, Lower(u, given)))
  {
    var name := Lower(u, given);
    LegalExactly(u, given);
    var firstLegal := IndexOfLegal(u, name);
    var lastLegal := LastIndexOfLegal(u, name);
    if firstLegal < 0 {
      return None;
    }
    SliceIsTrim(u, name, firstLegal, lastLegal);
    KeepAllowed(name[firstLegal..lastLegal + 1]);
    WellFormedExactly(u, given);
    name := name[firstLegal..lastLegal + 1];
    name := RemoveDisallowed(name);
    return Some(name);
  }

  // ---------- Fixed points ----------

  lemma LowerOfAllowed(u: Unicode, s: string)
    requires Standard(u) && forall i :: 0 <= i < |s| ==> Allowed(s[i])
    ensures Lower(u, s) == s
  {
    forall i | 0 <= i < |s| ensures u.lower(s[i]) == s[i] {
      assert Allowed(s[i]) && IsAscii(s[i]);
    }
  }

  lemma WellFormedStays(u: Unicode, s: string)
    requires Standard(u) && WellFormedLabel(s)
    ensures Normalized(u, s) == Some(s)
  {
    LowerOfAllowed(u, s);
    NoSeparatorIsLegal(u, s[0]);
    NoSeparatorIsLegal(u, s[|s| - 1]);
    SliceIsTrim(u, s, 0, |s| - 1);
    assert s[0..|s|] == s;
    KeepAllowed(s);
  }

  lemma {:induction false} KeepLength(s: string)
    ensures |Keep(s)| <= |s|
    decreases |s|
  {
    if s != [] {
      KeepLength(s[..|s| - 1]);
    }
  }

  lemma {:induction false} KeepOfAll(m: string)
    requires |Keep(m)| == |m|
    ensures Keep(m) == m
    decreases |m|
  {
    if m != [] {
      var front := m[..|m| - 1];
      KeepLength(front);
      KeepOfAll(front);
      assert m == front + [m[|m| - 1]];
    }
  }

  /** A string whose lower-case form yields it again by slicing and filtering is all lower case and all allowed. */
  lemma KeepsAll(u: Unicode, s: string, m: string)
    requires Standard(u) && |m| <= |s| && Keep(m) == s
    ensures |m| == |s| && Lower(u, s) == s && forall i :: 0 <= i < |s| ==> Allowed(s[i])
    ensures m == s
  {
    KeepAllowed(m);
    KeepLength(m);
    KeepOfAll(m);
    LowerOfAllowed(u, s);
  }

  /** Exactly the well-formed labels are left as they are. */
  lemma FixedPoints(u: Unicode, s: string)
    requires Standard(u)
    ensures Normalized(u, s) == Some(s) <==> WellFormedLabel(s)
  {
    if WellFormedLabel(s) {
      WellFormedStays(u, s);
    }
    if Normalized(u, s) == Some(s) {
      var l := Lower(u, s);
      var first, last := OutermostOf(u, l);
      SliceIsTrim(u, l, first, last);
      KeepsAll(u, s, l[first..last + 1]);
      assert l[first..last + 1] == l == s;
      NoSeparatorIsLegal(u, s[0]);
      NoSeparatorIsLegal(u, s[|s| - 1]);
    }
  }

  /** Normalising a result again changes nothing exactly when the result is a well-formed label. */
  lemma NormalizeTwice(u: Unicode, s: string)
    requires Standard(u) && HasLegal(u, Lower(u, s))
    ensures Normalized(u, Normalized(u, s).value) == Normalized(u, s) <==> SeparatorsInside(u, Lower(u, s))
  {
    FixedPoints(u, Normalized(u, s).value);
    WellFormedExactly(u, s);
  }

  /** On ASCII strings the promise is met: an error exactly without letter or digit, and a well-formed label otherwise. */
  lemma AsciiLabels(u: Unicode, s: string)
    requires Standard(u) && forall i :: 0 <= i < |s| ==> IsAscii(s[i])
    ensures HasLegal(u, Lower(u, s)) <==> exists i :: 0 <= i < |s| && Alphanumeric(AsciiLower(s[i]))
    ensures HasLegal(u, Lower(u, s)) ==> SeparatorsInside(u, Lower(u, s))
  {
    var l := Lower(u, s);
    forall i | 0 <= i < |s| ensures l[i] == AsciiLower(s[i]) && (Legal(u, l[i]) <==> Alphanumeric(l[i])) {
      assert IsAscii(s[i]) && IsAscii(AsciiLower(s[i]));
      NoSeparatorIsLegal(u, l[i]);
    }
    if HasLegal(u, l) {
      var first, last := OutermostOf(u, l);
      assert Encloses(u, l, first, last);
    }
  }

  /** A lower-case letter outside ASCII counts as a legal end and is then filtered out, with no label or a badly formed
      one left. */
  lemma ForeignEnds(u: Unicode)
    requires Standard(u) && u.lower('\U{00E9}') == '\U{00E9}' && u.isLower('\U{00E9}')
    ensures Normalized(u, "\U{00E9}") == Some("") && Normalized(u, "\U{00E9}-a") == Some("-a")
  {
    var short, long := "\U{00E9}", "\U{00E9}-a";
    assert Lower(u, short) == short;
    assert IsAscii('-') && IsAscii('a');
    assert Lower(u, long) == long;
    SliceIsTrim(u, short, 0, 0);
    SliceIsTrim(u, long, 0, 2);
    assert short[0..1] == short && long[0..3] == long;
    assert short[..0] == [];
    assert Keep(short) == "";
    assert long[..2] == "\U{00E9}-" && long[..2][..1] == short;
    assert Keep(long[..2]) == Keep(short) + "-";
    assert Keep(long) == Keep(long[..2]) + "a";
    assert Keep(long) == "-a";
  }
}
