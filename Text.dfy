/** The Foundation string operations the registries use, on `seq<char>`. */
module Text {
  import opened Seqs

  /** `s.components(separatedBy: String(sep))`: the pieces between separators, empty pieces kept. */
  function Split(s: string, sep: char): (parts: seq<string>)
    ensures |parts| >= 1
    ensures forall i :: 0 <= i < |parts| ==> sep !in parts[i]
  {
    if s == [] then [""]
    else
      var rest := Split(s[1..], sep);
      if s[0] == sep then [""] + rest else [[s[0]] + rest[0]] + rest[1..]
  }

  /** `parts.joined(separator: String(sep))`. */
  function Join(parts: seq<string>, sep: char): string
  {
    if |parts| == 0 then ""
    else if |parts| == 1 then parts[0]
    else parts[0] + [sep] + Join(parts[1..], sep)
  }

  /** Joining the pieces of a split gives back the original string. */
  lemma {:induction false} JoinSplit(s: string, sep: char)
    ensures Join(Split(s, sep), sep) == s
  {
    if s != [] {
      var rest := Split(s[1..], sep);
      JoinSplit(s[1..], sep);
      if s[0] == sep {
        assert Split(s, sep) == [""] + rest;
        assert ([""] + rest)[1..] == rest;
      } else {
        var parts := [[s[0]] + rest[0]] + rest[1..];
        assert Split(s, sep) == parts;
        if |rest| > 1 {
          assert parts[1..] == rest[1..];
          assert Join(rest, sep) == rest[0] + [sep] + Join(rest[1..], sep);
        }
      }
    }
  }

  lemma {:induction false} SplitPrefix(p: string, t: string, sep: char)
    requires sep !in p
    ensures Split(p + t, sep) == [p + Split(t, sep)[0]] + Split(t, sep)[1..]
  {
    if p != [] {
      var tt := Split(t, sep);
      SplitPrefix(p[1..], t, sep);
      assert (p + t)[1..] == p[1..] + t;
      var rest := Split(p[1..] + t, sep);
      assert rest == [p[1..] + tt[0]] + tt[1..];
      assert (p + t)[0] == p[0] && p[0] != sep;
      assert Split(p + t, sep) == [[p[0]] + rest[0]] + rest[1..];
      assert [p[0]] + (p[1..] + tt[0]) == p + tt[0];
    } else {
      assert p + t == t;
      assert p + Split(t, sep)[0] == Split(t, sep)[0];
      assert Split(t, sep) == [Split(t, sep)[0]] + Split(t, sep)[1..];
    }
  }

  /** Splitting pieces that are free of the separator, after joining them, gives back the pieces. */
  lemma {:induction false} SplitJoin(parts: seq<string>, sep: char)
    requires |parts| >= 1
    requires forall i :: 0 <= i < |parts| ==> sep !in parts[i]
    ensures Split(Join(parts, sep), sep) == parts
  {
    if |parts| == 1 {
      SplitPrefix(parts[0], "", sep);
      assert parts[0] + "" == parts[0];
    } else {
      var tail := Join(parts[1..], sep);
      SplitJoin(parts[1..], sep);
      assert ([sep] + tail)[1..] == tail;
      assert Split([sep] + tail, sep) == [""] + parts[1..];
      assert parts[0] + [sep] + tail == parts[0] + ([sep] + tail);
      SplitPrefix(parts[0], [sep] + tail, sep);
      assert parts[0] + "" == parts[0];
      assert parts == [parts[0]] + parts[1..];
    }
  }

  /** Joining two non-empty lists of pieces is joining their joins. */
  lemma {:induction false} JoinAppend(a: seq<string>, b: seq<string>, sep: char)
    requires |a| >= 1 && |b| >= 1
    ensures Join(a + b, sep) == Join(a, sep) + [sep] + Join(b, sep)
  {
    if |a| > 1 {
      assert (a + b)[1..] == a[1..] + b;
      JoinAppend(a[1..], b, sep);
    } else {
      assert (a + b)[1..] == b;
    }
  }

  /** `s.split(separator: sep)`: like `Split`, but empty pieces are omitted. */
  function SplitOmittingEmpty(s: string, sep: char): (parts: seq<string>)
    ensures parts == Filter(Split(s, sep), NonEmpty)
    ensures forall i :: 0 <= i < |parts| ==> parts[i] != [] && sep !in parts[i]
  {
    var all := Split(s, sep);
    var parts := Filter(all, NonEmpty);
    assert forall i :: 0 <= i < |parts| ==> parts[i] in parts;
    parts
  }

  predicate NonEmpty(s: string)
  {
    s != []
  }

  /** Joining non-empty, separator-free pieces and splitting with empty pieces omitted gives the pieces back. */
  lemma SplitOmittingEmptyJoin(parts: seq<string>, sep: char)
    requires |parts| >= 1
    requires forall i :: 0 <= i < |parts| ==> parts[i] != [] && sep !in parts[i]
    ensures SplitOmittingEmpty(Join(parts, sep), sep) == parts
  {
    SplitJoin(parts, sep);
    FilterKeepsAll(parts, NonEmpty);
  }

  /** `s.trimmingCharacters(in: [c])`, leading half. */
  function TrimLeading(s: string, c: char): (r: string)
    ensures |r| <= |s| && r == s[|s| - |r|..]
    ensures forall k :: 0 <= k < |s| - |r| ==> s[k] == c
    ensures r == [] || r[0] != c
  {
    if s != [] && s[0] == c then TrimLeading(s[1..], c) else s
  }

  /** `s.trimmingCharacters(in: [c])`, trailing half. */
  function TrimTrailing(s: string, c: char): (r: string)
    ensures |r| <= |s| && r == s[..|r|]
    ensures forall k :: |r| <= k < |s| ==> s[k] == c
    ensures r == [] || r[|r| - 1] != c
  {
    if s != [] && s[|s| - 1] == c then TrimTrailing(s[..|s| - 1], c) else s
  }

  /** `s.trimmingCharacters(in: [c])`: removes every leading and trailing `c`, so the result neither starts nor ends with it. */
  function Trim(s: string, c: char): (r: string)
    ensures |r| <= |s|
    ensures r == [] || (r[0] != c && r[|r| - 1] != c)
  {
    var l := TrimLeading(s, c);
    var r := TrimTrailing(l, c);
    assert r == l[..|r|];
    r
  }

  /** The trimmed string is the slice of `s` at `i`, and everything around it is `c`. */
  lemma TrimRemovesOnly(s: string, c: char, i: nat)
    requires i == |s| - |TrimLeading(s, c)|
    ensures i + |Trim(s, c)| <= |s| && Trim(s, c) == s[i..i + |Trim(s, c)|]
    ensures forall k :: 0 <= k < i ==> s[k] == c
    ensures forall k :: i + |Trim(s, c)| <= k < |s| ==> s[k] == c
  {
    var l := TrimLeading(s, c);
    var r := TrimTrailing(l, c);
    PrefixOfSuffix(s, l, r, i, c);
    assert Trim(s, c) == r;
  }

  /** A prefix `r` of the suffix `l` of `s` at `i`, followed in `l` only by `c`, is the slice of `s` at `i`, followed only by `c`. */
  lemma PrefixOfSuffix(s: string, l: string, r: string, i: nat, c: char)
    requires i <= |s| && l == s[i..] && |r| <= |l| && r == l[..|r|]
    requires forall k :: |r| <= k < |l| ==> l[k] == c
    ensures r == s[i..i + |r|]
    ensures forall k :: i + |r| <= k < |s| ==> s[k] == c
  {
    forall k | i + |r| <= k < |s|
      ensures s[k] == c
    {
      assert s[k] == l[k - i];
    }
  }

  /** A string that neither starts nor ends with `c` is left as it is. */
  lemma TrimUnchanged(s: string, c: char)
    requires s == [] || (s[0] != c && s[|s| - 1] != c)
    ensures Trim(s, c) == s
  {
  }

  /** Trimming twice is trimming once. */
  lemma TrimIdempotent(s: string, c: char)
    ensures Trim(Trim(s, c), c) == Trim(s, c)
  {
    TrimUnchanged(Trim(s, c), c);
  }

  /**
   * String `<` as lexicographic order on Unicode scalars, a proper prefix coming first. Swift
   * compares canonically equivalent strings as equal; this order does not.
   */
  predicate StrLess(a: string, b: string)
  {
    if a == [] then b != []
    else if b == [] then false
    else if a[0] == b[0] then StrLess(a[1..], b[1..])
    else a[0] < b[0]
  }

  lemma {:induction false} StrLessIrreflexive(a: string)
    ensures !StrLess(a, a)
  {
    if a != [] {
      StrLessIrreflexive(a[1..]);
    }
  }

  lemma {:induction false} StrLessTransitive(a: string, b: string, c: string)
    requires StrLess(a, b) && StrLess(b, c)
    ensures StrLess(a, c)
  {
    if a != [] && a[0] == b[0] && b[0] == c[0] {
      StrLessTransitive(a[1..], b[1..], c[1..]);
    }
  }

  /** Any two different strings are ordered one way round. */
  lemma {:induction false} StrLessTotal(a: string, b: string)
    requires a != b
    ensures StrLess(a, b) || StrLess(b, a)
  {
    if a != [] && b != [] && a[0] == b[0] {
      assert a == [a[0]] + a[1..];
      assert b == [b[0]] + b[1..];
      StrLessTotal(a[1..], b[1..]);
    }
  }

  /** `StrLess` is a strict order, as `sorted(by:)` requires of its comparator. */
  lemma StrLessStrictOrder()
    ensures StrictOrder(StrLess)
  {
    forall a: string ensures !StrLess(a, a) {
      StrLessIrreflexive(a);
    }
    forall a: string, b: string, c: string | StrLess(a, b) && StrLess(b, c) ensures StrLess(a, c) {
      StrLessTransitive(a, b, c);
    }
  }
}
