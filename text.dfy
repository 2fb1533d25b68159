/** String and byte helpers from the .NET base library that the client relies on:
    String.Split, String.IsNullOrWhiteSpace and the single-byte code page used as
    Encoding.Default. */
module Text {

  /** An unsigned 8-bit value, the element type of a datagram. */
  type byte = b: int | 0 <= b < 0x100

  // ---------------------------------------------------------------------------
  // Splitting on a separator
  // ---------------------------------------------------------------------------

  /** `sep` occurs in `s` starting at position `j`. */
  predicate MatchAt(s: string, j: nat, sep: string) {
    j + |sep| <= |s| && s[j..j + |sep|] == sep
  }

  /** String.Split(sep) with no options: scans left to right, cuts at every
      non-overlapping occurrence of `sep`, and keeps empty pieces. */
  function Split(s: string, sep: string): (pieces: seq<string>)
    requires |sep| > 0
    ensures |pieces| >= 1
    decreases |s|
  {
    if MatchAt(s, 0, sep) then [""] + Split(s[|sep|..], sep)
    else if |s| == 0 then [""]
    else
      var rest := Split(s[1..], sep);
      [[s[0]] + rest[0]] + rest[1..]
  }

  /** String.Join: the pieces with `sep` between each two. */
  function Join(pieces: seq<string>, sep: string): string
    requires |pieces| >= 1
    decreases |pieces|
  {
    if |pieces| == 1 then pieces[0] else pieces[0] + sep + Join(pieces[1..], sep)
  }

  /** Joining the pieces of a split gives back the original string. */
  lemma {:induction false} JoinSplit(s: string, sep: string)
    requires |sep| > 0
    ensures Join(Split(s, sep), sep) == s
    decreases |s|
  {
    if MatchAt(s, 0, sep) {
      JoinSplit(s[|sep|..], sep);
      var rest := Split(s[|sep|..], sep);
      assert ([""] + rest)[1..] == rest;
      assert s == sep + s[|sep|..];
    } else if |s| == 0 {
    } else {
      JoinSplit(s[1..], sep);
      JoinPrefixFirst(s[0], Split(s[1..], sep), sep);
      assert s == [s[0]] + s[1..];
    }
  }

  /** Prefixing the first piece prefixes the joined text. */
  lemma JoinPrefixFirst(c: char, rest: seq<string>, sep: string)
    requires |rest| >= 1
    ensures Join([[c] + rest[0]] + rest[1..], sep) == [c] + Join(rest, sep)
  {
    var pieces := [[c] + rest[0]] + rest[1..];
    assert pieces[1..] == rest[1..];
    if |rest| > 1 {
      assert Join(rest, sep) == rest[0] + sep + Join(rest[1..], sep);
    }
  }

  /** No occurrence of `sep` starts inside `p` when `p` is followed by `sep`:
      `p` can stand between two separators and be cut out again unchanged. */
  predicate Clean(p: string, sep: string) {
    forall j :: 0 <= j < |p| ==> !MatchAt(p + sep, j, sep)
  }

  lemma CleanTail(p: string, sep: string)
    requires |p| > 0 && Clean(p, sep)
    ensures Clean(p[1..], sep)
  {
    var q := p[1..];
    assert q + sep == (p + sep)[1..];
    forall j | 0 <= j < |q|
      ensures !MatchAt(q + sep, j, sep)
    {
      if MatchAt(q + sep, j, sep) {
        assert (q + sep)[j..j + |sep|] == (p + sep)[j + 1..j + 1 + |sep|];
        assert MatchAt(p + sep, j + 1, sep);
      }
    }
  }

  /** A piece with no separator in it splits into itself. */
  lemma {:induction false} SplitClean(p: string, sep: string)
    requires |sep| > 0 && Clean(p, sep)
    ensures Split(p, sep) == [p]
    decreases |p|
  {
    if |p| > 0 {
      assert !MatchAt(p, 0, sep) by {
        assert !MatchAt(p + sep, 0, sep);
        if |sep| <= |p| { assert (p + sep)[0..|sep|] == p[0..|sep|]; }
      }
      CleanTail(p, sep);
      SplitClean(p[1..], sep);
      assert [p[0]] + p[1..] == p;
    }
  }

  /** Splitting `a + sep + rest` cuts `a` off at the separator that follows it. */
  lemma {:induction false} SplitPrefix(a: string, sep: string, rest: string)
    requires |sep| > 0 && Clean(a, sep)
    ensures Split(a + sep + rest, sep) == [a] + Split(rest, sep)
    decreases |a|
  {
    var s := a + sep + rest;
    if |a| == 0 {
      assert s == sep + rest;
      assert MatchAt(s, 0, sep);
      assert s[|sep|..] == rest;
    } else {
      assert !MatchAt(s, 0, sep) by {
        assert !MatchAt(a + sep, 0, sep);
        assert (a + sep)[0..|sep|] == s[0..|sep|];
      }
      CleanTail(a, sep);
      assert s[1..] == a[1..] + sep + rest;
      SplitPrefix(a[1..], sep, rest);
      assert [a[0]] + a[1..] == a;
    }
  }

  /** Splitting the join of clean pieces gives back exactly those pieces. */
  lemma {:induction false} SplitJoin(pieces: seq<string>, sep: string)
    requires |sep| > 0 && |pieces| >= 1
    requires forall k :: 0 <= k < |pieces| ==> Clean(pieces[k], sep)
    ensures Split(Join(pieces, sep), sep) == pieces
    decreases |pieces|
  {
    if |pieces| == 1 {
      SplitClean(pieces[0], sep);
    } else {
      SplitJoin(pieces[1..], sep);
      SplitPrefix(pieces[0], sep, Join(pieces[1..], sep));
      assert [pieces[0]] + pieces[1..] == pieces;
    }
  }

  /** For a one-character separator, clean means "does not contain it". */
  lemma CleanSingle(p: string, c: char)
    requires forall k :: 0 <= k < |p| ==> p[k] != c
    ensures Clean(p, [c])
  {
    forall j | 0 <= j < |p|
      ensures !MatchAt(p + [c], j, [c])
    {
      assert (p + [c])[j] == p[j];
    }
  }

  /** The pieces of a split on `[c]` never contain `c`. */
  lemma {:induction false} SplitPiecesAvoid(s: string, c: char)
    ensures forall k, m :: 0 <= k < |Split(s, [c])| && 0 <= m < |Split(s, [c])[k]| ==> Split(s, [c])[k][m] != c
    decreases |s|
  {
    if MatchAt(s, 0, [c]) {
      SplitPiecesAvoid(s[1..], c);
    } else if |s| > 0 {
      SplitPiecesAvoid(s[1..], c);
      assert s[0] != c by { assert s[0..1] == [s[0]]; }
    }
  }

  // ---------------------------------------------------------------------------
  // StringSplitOptions.RemoveEmptyEntries
  // ---------------------------------------------------------------------------

  /** The pieces in order, with the empty ones dropped. */
  function RemoveEmpty(pieces: seq<string>): (kept: seq<string>)
    ensures forall k :: 0 <= k < |kept| ==> kept[k] != ""
    ensures |kept| <= |pieces|
    ensures forall k :: 0 <= k < |kept| ==> kept[k] in pieces
  {
    if |pieces| == 0 then []
    else if pieces[0] == "" then RemoveEmpty(pieces[1..])
    else [pieces[0]] + RemoveEmpty(pieces[1..])
  }

  /** A single piece is kept exactly when it is not empty. */
  lemma RemoveEmptySingle(p: string)
    ensures RemoveEmpty([p]) == (if p == "" then [] else [p])
  {
    assert [p][1..] == [];
  }

  /** Dropping empty pieces works piece by piece: every non-empty piece is kept,
      in its original order. */
  lemma {:induction false} RemoveEmptyAppend(a: seq<string>, b: seq<string>)
    ensures RemoveEmpty(a + b) == RemoveEmpty(a) + RemoveEmpty(b)
    decreases |a|
  {
    if |a| == 0 {
      assert a + b == b;
    } else {
      assert (a + b)[1..] == a[1..] + b;
      RemoveEmptyAppend(a[1..], b);
      if a[0] != "" {
        assert [a[0]] + (RemoveEmpty(a[1..]) + RemoveEmpty(b)) == ([a[0]] + RemoveEmpty(a[1..])) + RemoveEmpty(b);
      }
    }
  }

  /** Each piece followed by the separator, as a sender lays out a list of records. */
  function Terminated(pieces: seq<string>, sep: string): string {
    if |pieces| == 0 then "" else pieces[0] + sep + Terminated(pieces[1..], sep)
  }

  /** Splitting a list of non-empty clean records, each followed by `sep`, and
      dropping the empty pieces, recovers exactly the records in order. */
  lemma {:induction false} SplitTerminated(pieces: seq<string>, sep: string)
    requires |sep| > 0
    requires forall k :: 0 <= k < |pieces| ==> pieces[k] != "" && Clean(pieces[k], sep)
    ensures RemoveEmpty(Split(Terminated(pieces, sep), sep)) == pieces
    decreases |pieces|
  {
    if |pieces| == 0 {
      assert Split("", sep) == [""];
    } else {
      SplitTerminated(pieces[1..], sep);
      SplitPrefix(pieces[0], sep, Terminated(pieces[1..], sep));
      var tail := Split(Terminated(pieces[1..], sep), sep);
      assert ([pieces[0]] + tail)[1..] == tail;
      assert [pieces[0]] + pieces[1..] == pieces;
    }
  }

  // ---------------------------------------------------------------------------
  // String.IsNullOrWhiteSpace (null is not modelled)
  // ---------------------------------------------------------------------------

  /** Char.IsWhiteSpace: the Unicode space separators, line and paragraph
      separators, and U+0009..U+000D, U+0085. */
  predicate IsWhiteSpace(c: char) {
    var n := c as int;
    (0x09 <= n <= 0x0D) || n == 0x20 || n == 0x85 || n == 0xA0 || n == 0x1680
    || (0x2000 <= n <= 0x200A) || n == 0x2028 || n == 0x2029 || n == 0x202F
    || n == 0x205F || n == 0x3000
  }

  /** String.IsNullOrWhiteSpace on a non-null string: empty, or only white space. */
  predicate IsWhiteSpaceOnly(s: string) {
    forall k :: 0 <= k < |s| ==> IsWhiteSpace(s[k])
  }

  // ---------------------------------------------------------------------------
  // The code page: Latin-1, one byte per character
  // ---------------------------------------------------------------------------

  /** The byte for character `c`; characters outside Latin-1 become '?'. */
  function EncodeChar(c: char): byte {
    if c as int < 0x100 then c as int else 0x3F
  }

  function EncodeLatin1(s: string): (bytes: seq<byte>)
    ensures |bytes| == |s|
    ensures forall k :: 0 <= k < |s| ==> bytes[k] == EncodeChar(s[k])
  {
    seq(|s|, k requires 0 <= k < |s| => EncodeChar(s[k]))
  }

  function DecodeLatin1(bytes: seq<byte>): (s: string)
    ensures |s| == |bytes|
    ensures forall k :: 0 <= k < |bytes| ==> s[k] as int == bytes[k]
  {
    seq(|bytes|, k requires 0 <= k < |bytes| => bytes[k] as char)
  }

  predicate IsLatin1(s: string) {
    forall k :: 0 <= k < |s| ==> s[k] as int < 0x100
  }

  /** Decoding undoes encoding for text the code page can represent. */
  lemma Latin1RoundTrip(s: string)
    requires IsLatin1(s)
    ensures DecodeLatin1(EncodeLatin1(s)) == s
  {
    var d := DecodeLatin1(EncodeLatin1(s));
    forall k | 0 <= k < |s|
      ensures d[k] == s[k]
    {
      assert d[k] as int == s[k] as int;
    }
  }

  /** Encoding undoes decoding for every byte sequence. */
  lemma Latin1Bijective(bytes: seq<byte>)
    ensures IsLatin1(DecodeLatin1(bytes))
    ensures EncodeLatin1(DecodeLatin1(bytes)) == bytes
  {
  }
}
