/** Text primitives shared by the Markdown and HTML components. A JavaScript string
    is modelled as a sequence of Dafny `char`s, which are Unicode scalar values: `|s|`
    agrees with the source's `s.length` for text inside the Basic Multilingual Plane,
    while a character outside it counts once here and twice in JavaScript. */
module Text {

  import opened Wrappers

  /** The characters that JavaScript's `String.prototype.trim` removes and that the
      regular-expression class `\s` matches: the WhiteSpace and LineTerminator code
      points of ECMAScript. */
  predicate IsJsWhitespace(c: char) {
    c == ' ' || c == '\t' || c == '\n' || c == '\U{000B}' || c == '\U{000C}' || c == '\r'
    || c == '\U{00A0}' || c == '\U{1680}' || ('\U{2000}' <= c <= '\U{200A}')
    || c == '\U{2028}' || c == '\U{2029}' || c == '\U{202F}' || c == '\U{205F}'
    || c == '\U{3000}' || c == '\U{FEFF}'
  }

  /** The regular-expression class `\w` outside Unicode mode: ASCII letters, digits and `_`. */
  predicate IsWordChar(c: char) {
    ('a' <= c <= 'z') || ('A' <= c <= 'Z') || ('0' <= c <= '9') || c == '_'
  }

  predicate AllWhitespace(s: string) {
    forall k :: 0 <= k < |s| ==> IsJsWhitespace(s[k])
  }

  /** The index of the first character at or after `i` that is not whitespace, or
      `|s|` when there is none. */
  function LeadingEnd(s: string, i: nat): (e: nat)
    requires i <= |s|
    ensures i <= e <= |s|
    ensures forall k :: i <= k < e ==> IsJsWhitespace(s[k])
    ensures e == |s| || !IsJsWhitespace(s[e])
    decreases |s| - i
  {
    if i == |s| || !IsJsWhitespace(s[i]) then i else LeadingEnd(s, i + 1)
  }

  /** The end of `s[lo..j]` once its trailing whitespace is dropped. */
  function TrailingEnd(s: string, lo: nat, j: nat): (e: nat)
    requires lo <= j <= |s|
    ensures lo <= e <= j
    ensures forall k :: e <= k < j ==> IsJsWhitespace(s[k])
    ensures e == lo || !IsJsWhitespace(s[e - 1])
    decreases j
  {
    if j == lo || !IsJsWhitespace(s[j - 1]) then j else TrailingEnd(s, lo, j - 1)
  }

  /** `r` is the slice of `s` from `i` on, everything before and after it is whitespace
      and `r` neither starts nor ends with whitespace. */
  predicate TrimmedAt(s: string, i: nat, r: string) {
    && i + |r| <= |s| && r == s[i..i + |r|]
    && (forall k :: 0 <= k < i ==> IsJsWhitespace(s[k]))
    && (forall k :: i + |r| <= k < |s| ==> IsJsWhitespace(s[k]))
    && (r == [] || (!IsJsWhitespace(r[0]) && !IsJsWhitespace(r[|r| - 1])))
  }

  /** `String.prototype.trim`: the slice of `s` left after removing whitespace at both
      ends, starting where the leading whitespace ends. */
  function Trim(s: string): (r: string)
    ensures TrimmedAt(s, LeadingEnd(s, 0), r)
  {
    var i := LeadingEnd(s, 0);
    var j := TrailingEnd(s, i, |s|);
    var r := s[i..j];
    assert r != [] ==> r[0] == s[i] && r[|r| - 1] == s[j - 1];
    r
  }

  /** A string is empty after trimming exactly when it is all whitespace. */
  lemma TrimEmptyIff(s: string)
    ensures Trim(s) == [] <==> AllWhitespace(s)
  {
  }

  /** Trimming text that has no whitespace at its ends changes nothing. */
  lemma TrimKeepsTrimmed(s: string)
    requires s == [] || (!IsJsWhitespace(s[0]) && !IsJsWhitespace(s[|s| - 1]))
    ensures Trim(s) == s
  {
    assert LeadingEnd(s, 0) == 0;
    assert TrailingEnd(s, 0, |s|) == |s|;
    assert s[0..|s|] == s;
  }

  /** Trimming only deletes characters. */
  lemma TrimSubsequence(s: string)
    ensures IsSubsequence(Trim(s), s)
  {
    var i := LeadingEnd(s, 0);
    SubsequenceOfSlice(s, i, i + |Trim(s)|);
  }

  /** Trimming is idempotent. */
  lemma TrimIdempotent(s: string)
    ensures Trim(Trim(s)) == Trim(s)
  {
    TrimKeepsTrimmed(Trim(s));
  }

  /** ASCII lower-casing. For the comparisons the model makes (against lower-case ASCII
      literals) it agrees with both JavaScript's `toLowerCase` and the case folding of
      a non-Unicode `/i` regular expression, which never maps a non-ASCII character
      onto an ASCII one that occurs in those literals. */
  function LowerAscii(c: char): char {
    if 'A' <= c <= 'Z' then (c as int + 32) as char else c
  }

  function LowerAsciiString(s: string): (r: string)
    ensures |r| == |s|
    ensures forall k :: 0 <= k < |s| ==> r[k] == LowerAscii(s[k])
  {
    seq(|s|, k requires 0 <= k < |s| => LowerAscii(s[k]))
  }

  /** Whether the lower-case word `w` occurs in `s` at index `i`, ignoring ASCII case. */
  predicate AtIgnoreCase(s: string, i: nat, w: string) {
    i + |w| <= |s| && LowerAsciiString(s[i..i + |w|]) == w
  }

  predicate ContainsIgnoreCase(s: string, w: string) {
    exists i: nat :: i <= |s| && AtIgnoreCase(s, i, w)
  }

  predicate StartsWith(s: string, prefix: string) {
    |prefix| <= |s| && s[..|prefix|] == prefix
  }

  /** The first index at or after `from` that holds `c`: the position where a
      regular-expression run `[^c]*c` starting at `from` ends. */
  function FindChar(s: string, from: nat, c: char): (r: Option<nat>)
    ensures r.Some? ==> from <= r.value < |s| && s[r.value] == c
    ensures r.Some? ==> forall k :: from <= k < r.value ==> s[k] != c
    ensures r.None? ==> forall k :: from <= k < |s| ==> s[k] != c
    decreases |s| - from
  {
    if from >= |s| then None
    else if s[from] == c then Some(from)
    else FindChar(s, from + 1, c)
  }

  /** The first `c` at or after `from` is what `FindChar` finds. */
  lemma FindCharFirst(s: string, from: nat, c: char, j: nat)
    requires from <= j < |s| && s[j] == c
    requires forall k :: from <= k < j ==> s[k] != c
    ensures FindChar(s, from, c) == Some(j)
  {
  }

  /** `Array.prototype.join`: the parts with `sep` between consecutive ones. */
  function Join(parts: seq<string>, sep: string): (r: string)
    decreases |parts|
  {
    if |parts| == 0 then ""
    else if |parts| == 1 then parts[0]
    else parts[0] + sep + Join(parts[1..], sep)
  }

  /** Appending a part to a join appends the separator and that part. */
  lemma {:induction false} JoinSnoc(parts: seq<string>, last: string, sep: string)
    requires |parts| > 0
    ensures Join(parts + [last], sep) == Join(parts, sep) + sep + last
    decreases |parts|
  {
    if |parts| == 1 {
      assert (parts + [last])[1..] == [last];
    } else {
      assert (parts + [last])[1..] == parts[1..] + [last];
      JoinSnoc(parts[1..], last, sep);
    }
  }

  /** `a` can be obtained from `b` by deleting elements. */
  predicate IsSubsequence<T(==)>(a: seq<T>, b: seq<T>)
    decreases |b|
  {
    if a == [] then true
    else if b == [] then false
    else (a[0] == b[0] && IsSubsequence(a[1..], b[1..])) || IsSubsequence(a, b[1..])
  }

  lemma {:induction false} SubsequenceReflexive<T>(a: seq<T>)
    ensures IsSubsequence(a, a)
    decreases |a|
  {
    if a != [] {
      SubsequenceReflexive(a[1..]);
    }
  }

  /** Putting more elements in front of the longer sequence keeps the relation. */
  lemma {:induction false} SubsequenceExtendFront<T>(a: seq<T>, b: seq<T>, c: seq<T>)
    requires IsSubsequence(a, b)
    ensures IsSubsequence(a, c + b)
    decreases |c|
  {
    if a != [] && c != [] {
      SubsequenceExtendFront(a, b, c[1..]);
      assert (c + b)[1..] == c[1..] + b;
      assert c + b != [];
    } else if c == [] {
      assert c + b == b;
    }
  }

  lemma {:induction false} SubsequenceTransitive<T>(a: seq<T>, b: seq<T>, c: seq<T>)
    requires IsSubsequence(a, b) && IsSubsequence(b, c)
    ensures IsSubsequence(a, c)
    decreases |c|
  {
    if a != [] {
      if IsSubsequence(b, c[1..]) {
        SubsequenceTransitive(a, b, c[1..]);
      } else if a[0] == b[0] && IsSubsequence(a[1..], b[1..]) {
        SubsequenceTransitive(a[1..], b[1..], c[1..]);
      } else {
        SubsequenceTransitive(a, b[1..], c[1..]);
      }
    }
  }

  /** Subsequences can be concatenated piecewise. */
  lemma {:induction false} SubsequenceConcat<T>(a1: seq<T>, b1: seq<T>, a2: seq<T>, b2: seq<T>)
    requires IsSubsequence(a1, b1) && IsSubsequence(a2, b2)
    ensures IsSubsequence(a1 + a2, b1 + b2)
    decreases |b1|
  {
    if a1 == [] {
      assert a1 + a2 == a2;
      SubsequenceExtendFront(a2, b2, b1);
    } else {
      assert (a1 + a2)[0] == a1[0] && (b1 + b2)[0] == b1[0];
      assert (b1 + b2)[1..] == b1[1..] + b2;
      if a1[0] == b1[0] && IsSubsequence(a1[1..], b1[1..]) {
        SubsequenceConcat(a1[1..], b1[1..], a2, b2);
        assert (a1 + a2)[1..] == a1[1..] + a2;
      } else {
        SubsequenceConcat(a1, b1[1..], a2, b2);
      }
    }
  }

  /** A subsequence of a suffix of `s` is one of every longer suffix. */
  lemma SubsequenceOfLongerSuffix<T>(a: seq<T>, s: seq<T>, i: nat, e: nat)
    requires i <= e <= |s| && IsSubsequence(a, s[e..])
    ensures IsSubsequence(a, s[i..])
  {
    SubsequenceExtendFront(a, s[e..], s[i..e]);
    assert s[i..e] + s[e..] == s[i..];
  }

  /** Keeping the first element of a suffix keeps the relation. */
  lemma SubsequenceKeepHead<T>(a: seq<T>, s: seq<T>, i: nat)
    requires i < |s| && IsSubsequence(a, s[i + 1..])
    ensures IsSubsequence([s[i]] + a, s[i..])
  {
    assert ([s[i]] + a)[0] == s[i..][0];
    assert ([s[i]] + a)[1..] == a;
    assert s[i..][1..] == s[i + 1..];
  }

  /** A contiguous slice is a subsequence. */
  lemma SubsequenceOfSlice<T>(s: seq<T>, i: nat, j: nat)
    requires i <= j <= |s|
    ensures IsSubsequence(s[i..j], s)
  {
    var front, mid, back := s[..i], s[i..j], s[j..];
    SubsequenceReflexive(mid);
    SubsequenceConcat(mid, mid, [], back);
    assert mid + [] == mid;
    assert mid + back == s[i..];
    assert front + s[i..] == s;
    SubsequenceExtendFront(mid, mid + back, front);
  }

  /** A subsequence is never longer. */
  lemma {:induction false} SubsequenceLength<T>(a: seq<T>, b: seq<T>)
    requires IsSubsequence(a, b)
    ensures |a| <= |b|
    decreases |b|
  {
    if a != [] {
      if a[0] == b[0] && IsSubsequence(a[1..], b[1..]) {
        SubsequenceLength(a[1..], b[1..]);
      } else {
        SubsequenceLength(a, b[1..]);
      }
    }
  }

  /** Every element of a subsequence is an element of the longer sequence. */
  lemma {:induction false} SubsequenceMembers<T>(a: seq<T>, b: seq<T>, x: T)
    requires IsSubsequence(a, b) && x in a
    ensures x in b
    decreases |b|
  {
    if a[0] == b[0] && IsSubsequence(a[1..], b[1..]) {
      if x != a[0] {
        SubsequenceMembers(a[1..], b[1..], x);
      }
    } else {
      SubsequenceMembers(a, b[1..], x);
    }
  }

  /** The messages of up to three checks made in a fixed order, each added when its
      check fires. */
  function Checks3<T>(b1: bool, x1: T, b2: bool, x2: T, b3: bool, x3: T): seq<T> {
    (if b1 then [x1] else []) + (if b2 then [x2] else []) + (if b3 then [x3] else [])
  }

  /** With distinct messages, each is reported exactly when its check fires, they come in
      check order, and none is reported exactly when no check fires. */
  lemma Checks3Exact<T>(b1: bool, x1: T, b2: bool, x2: T, b3: bool, x3: T)
    requires x1 != x2 && x1 != x3 && x2 != x3
    ensures var e := Checks3(b1, x1, b2, x2, b3, x3);
      && (x1 in e <==> b1) && (x2 in e <==> b2) && (x3 in e <==> b3)
      && (e == [] <==> !b1 && !b2 && !b3)
      && IsSubsequence(e, [x1, x2, x3])
  {
    var e1: seq<T> := if b1 then [x1] else [];
    var e2: seq<T> := if b2 then [x2] else [];
    var e3: seq<T> := if b3 then [x3] else [];
    SubsequenceOfOne(e1, x1);
    SubsequenceOfOne(e2, x2);
    SubsequenceOfOne(e3, x3);
    SubsequenceConcat(e1, [x1], e2, [x2]);
    assert [x1] + [x2] == [x1, x2];
    SubsequenceConcat(e1 + e2, [x1, x2], e3, [x3]);
    assert [x1, x2] + [x3] == [x1, x2, x3];
  }

  /** The same for four checks. */
  function Checks4<T>(b1: bool, x1: T, b2: bool, x2: T, b3: bool, x3: T, b4: bool, x4: T): seq<T> {
    Checks3(b1, x1, b2, x2, b3, x3) + (if b4 then [x4] else [])
  }

  lemma Checks4Exact<T>(b1: bool, x1: T, b2: bool, x2: T, b3: bool, x3: T, b4: bool, x4: T)
    requires x1 != x2 && x1 != x3 && x1 != x4 && x2 != x3 && x2 != x4 && x3 != x4
    ensures var e := Checks4(b1, x1, b2, x2, b3, x3, b4, x4);
      && (x1 in e <==> b1) && (x2 in e <==> b2) && (x3 in e <==> b3) && (x4 in e <==> b4)
      && (e == [] <==> !b1 && !b2 && !b3 && !b4)
      && IsSubsequence(e, [x1, x2, x3, x4])
  {
    var front := Checks3(b1, x1, b2, x2, b3, x3);
    var last: seq<T> := if b4 then [x4] else [];
    Checks3Exact(b1, x1, b2, x2, b3, x3);
    SubsequenceOfOne(last, x4);
    SubsequenceConcat(front, [x1, x2, x3], last, [x4]);
    assert [x1, x2, x3] + [x4] == [x1, x2, x3, x4];
  }

  lemma SubsequenceOfOne<T>(e: seq<T>, x: T)
    requires e == [] || e == [x]
    ensures IsSubsequence(e, [x])
  {
    if e == [x] {
      SubsequenceReflexive(e);
    }
  }

  // ---------------------------------------------------------------------------
  // The values of a list of verdicts, and where they sit
  // ---------------------------------------------------------------------------

  /** Every index moved one place on. */
  function Shifted(ix: seq<nat>): (r: seq<nat>)
    ensures |r| == |ix| && forall i {:trigger r[i]} :: 0 <= i < |ix| ==> r[i] == ix[i] + 1
  {
    seq(|ix|, i requires 0 <= i < |ix| => ix[i] + 1)
  }

  /** The positions of `os` that hold a value, ascending. */
  function SomeIndices<T>(os: seq<Option<T>>): seq<nat>
    decreases |os|
  {
    if os == [] then []
    else if os[0].Some? then [0] + Shifted(SomeIndices(os[1..]))
    else Shifted(SomeIndices(os[1..]))
  }

  /** The values `os` holds, in order. */
  function Somes<T>(os: seq<Option<T>>): seq<T>
    decreases |os|
  {
    if os == [] then []
    else if os[0].Some? then [os[0].value] + Somes(os[1..])
    else Somes(os[1..])
  }

  /** Entry `i` of the positions of `os` in terms of those of `os[1..]`. */
  lemma SomeIndicesAt<T>(os: seq<Option<T>>, i: nat)
    requires os != []
    ensures var h := if os[0].Some? then 1 else 0;
      |SomeIndices(os)| == h + |SomeIndices(os[1..])|
      && (i < |SomeIndices(os)| ==>
            if i < h then SomeIndices(os)[i] == 0
            else SomeIndices(os)[i] == SomeIndices(os[1..])[i - h] + 1)
  {
    var rest := SomeIndices(os[1..]);
    var s := Shifted(rest);
    if os[0].Some? {
      assert SomeIndices(os) == [0] + s;
      if 0 < i < |SomeIndices(os)| {
        assert ([0] + s)[i] == s[i - 1] == rest[i - 1] + 1;
      }
    } else {
      assert SomeIndices(os) == s;
      if i < |s| {
        assert s[i] == rest[i] + 1;
      }
    }
  }

  /** Entry `i` of the values of `os` in terms of those of `os[1..]`. */
  lemma SomesAt<T>(os: seq<Option<T>>, i: nat)
    requires os != []
    ensures var h := if os[0].Some? then 1 else 0;
      |Somes(os)| == h + |Somes(os[1..])|
      && (i < |Somes(os)| ==>
            if i < h then os[0] == Some(Somes(os)[i]) else Somes(os)[i] == Somes(os[1..])[i - h])
  {
    var rest := Somes(os[1..]);
    if os[0].Some? {
      assert Somes(os) == [os[0].value] + rest;
      if 0 < i < |Somes(os)| {
        assert ([os[0].value] + rest)[i] == rest[i - 1];
      }
    }
  }

  /** The positions are ascending, so each is listed once. */
  lemma {:induction false} SomeIndicesAscending<T>(os: seq<Option<T>>)
    ensures var ix := SomeIndices(os); forall i, j :: 0 <= i < j < |ix| ==> ix[i] < ix[j]
    decreases |os|
  {
    if os != [] {
      var ix := SomeIndices(os);
      SomeIndicesAscending(os[1..]);
      forall i, j | 0 <= i < j < |ix|
        ensures ix[i] < ix[j]
      {
        SomeIndicesAt(os, i);
        SomeIndicesAt(os, j);
      }
    }
  }

  /** Only positions holding a value are listed. */
  lemma {:induction false} SomeIndicesSound<T>(os: seq<Option<T>>)
    ensures var ix := SomeIndices(os); forall i :: 0 <= i < |ix| ==> ix[i] < |os| && os[ix[i]].Some?
    decreases |os|
  {
    if os != [] {
      var tail := os[1..];
      var rest := SomeIndices(tail);
      SomeIndicesSound(tail);
      var ix := SomeIndices(os);
      forall i | 0 <= i < |ix|
        ensures ix[i] < |os| && os[ix[i]].Some?
      {
        SomeIndicesAt(os, i);
        var h := if os[0].Some? then 1 else 0;
        if i >= h {
          assert tail[rest[i - h]] == os[ix[i]];
        }
      }
    }
  }

  /** Every position holding a value is listed. */
  lemma {:induction false} SomeIndicesComplete<T>(os: seq<Option<T>>)
    ensures var ix := SomeIndices(os); forall k :: 0 <= k < |os| && os[k].Some? ==> k in ix
    decreases |os|
  {
    if os != [] {
      var tail := os[1..];
      var rest := SomeIndices(tail);
      SomeIndicesComplete(tail);
      var ix := SomeIndices(os);
      var h := if os[0].Some? then 1 else 0;
      SomeIndicesAt(os, 0);
      forall k | 0 <= k < |os| && os[k].Some?
        ensures k in ix
      {
        if k > 0 {
          assert tail[k - 1].Some?;
          var i :| 0 <= i < |rest| && rest[i] == k - 1;
          SomeIndicesAt(os, i + h);
        } else {
          SomeIndicesAt(os, 0);
        }
      }
    }
  }

  /** Value `i` is the one held at position `SomeIndices(os)[i]`: one value per position
      that holds one, duplicates included. */
  lemma {:induction false} SomesByIndex<T>(os: seq<Option<T>>)
    ensures var ix := SomeIndices(os);
      && |Somes(os)| == |ix|
      && forall i :: 0 <= i < |ix| ==> ix[i] < |os| && os[ix[i]] == Some(Somes(os)[i])
    decreases |os|
  {
    if os != [] {
      var tail := os[1..];
      var rest := SomeIndices(tail);
      SomesByIndex(tail);
      var ix := SomeIndices(os);
      var h := if os[0].Some? then 1 else 0;
      SomeIndicesAt(os, 0);
      SomesAt(os, 0);
      forall i | 0 <= i < |ix|
        ensures ix[i] < |os| && os[ix[i]] == Some(Somes(os)[i])
      {
        SomeIndicesAt(os, i);
        SomesAt(os, i);
        if i >= h {
          assert os[ix[i]] == tail[rest[i - h]];
        }
      }
    }
  }
}
