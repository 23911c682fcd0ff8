/** The Ruby string operations the generator relies on: literal String#gsub,
    String#split with a string separator, Array#join and Integer#to_s. */
module Text {
  import opened Wrappers

  /** `p` occurs somewhere in `s` as a contiguous piece. */
  predicate Contains(s: string, p: string)
    decreases |s|
  {
    if |s| < |p| then false
    else s[..|p|] == p || (s != [] && Contains(s[1..], p))
  }

  /** String#gsub(pat, rep) with a literal pattern: scanning left to right, every
      occurrence of `pat` that does not overlap an earlier one becomes `rep`.
      An empty pattern matches before every character and at the end. */
  function ReplaceAll(s: string, pat: string, rep: string): string
    decreases |s|
  {
    if pat == [] then
      if s == [] then rep else rep + [s[0]] + ReplaceAll(s[1..], pat, rep)
    else if |s| < |pat| then s
    else if s[..|pat|] == pat then rep + ReplaceAll(s[|pat|..], pat, rep)
    else [s[0]] + ReplaceAll(s[1..], pat, rep)
  }

  /** The pieces of `s` between the occurrences of `sep` that a left-to-right scan
      finds; empty pieces are kept, so there is one more piece than occurrences.
      SplitOnFree shows that no piece contains `sep`. */
  function SplitOn(s: string, sep: string): (r: seq<string>)
    requires sep != []
    ensures |r| >= 1
    decreases |s|
  {
    if |s| < |sep| then [s]
    else if s[..|sep|] == sep then [[]] + SplitOn(s[|sep|..], sep)
    else
      var rest := SplitOn(s[1..], sep);
      [[s[0]] + rest[0]] + rest[1..]
  }

  /** The first piece of a split is a prefix of the text. */
  lemma {:induction false} SplitOnFirst(s: string, sep: string)
    requires sep != []
    ensures SplitOn(s, sep)[0] <= s
    decreases |s|
  {
    if |s| >= |sep| && s[..|sep|] != sep {
      SplitOnFirst(s[1..], sep);
    }
  }

  /** No piece of a split contains the separator. */
  lemma {:induction false} SplitOnFree(s: string, sep: string)
    requires sep != []
    ensures forall f :: f in SplitOn(s, sep) ==> !Contains(f, sep)
    decreases |s|
  {
    if |s| < |sep| {
      assert !Contains(s, sep);
    } else if s[..|sep|] == sep {
      SplitOnFree(s[|sep|..], sep);
    } else {
      var rest := SplitOn(s[1..], sep);
      SplitOnFree(s[1..], sep);
      SplitOnFirst(s[1..], sep);
      var head := [s[0]] + rest[0];
      assert rest[0] in rest;
      assert head <= s;
      assert !Contains(head, sep) by {
        if |head| >= |sep| {
          assert head[..|sep|] == s[..|sep|];
        }
        assert head[1..] == rest[0];
      }
      assert forall f :: f in rest[1..] ==> f in rest;
    }
  }

  /** Array#join(sep). */
  function Join(fields: seq<string>, sep: string): string {
    if fields == [] then []
    else if |fields| == 1 then fields[0]
    else fields[0] + sep + Join(fields[1..], sep)
  }

  /** A join is at least as long as its last field. */
  lemma {:induction false} JoinHoldsLast(fields: seq<string>, sep: string)
    requires fields != []
    ensures |Join(fields, sep)| >= |fields[|fields| - 1]|
  {
    if |fields| > 1 {
      JoinHoldsLast(fields[1..], sep);
    }
  }

  /** Joining with a longer first piece just prefixes the result. */
  lemma JoinConsHead(c: char, fields: seq<string>, sep: string)
    requires fields != []
    ensures Join([[c] + fields[0]] + fields[1..], sep) == [c] + Join(fields, sep)
  {
    var fs := [[c] + fields[0]] + fields[1..];
    assert fs[1..] == fields[1..];
  }

  /** Global replacement is splitting at the pattern and joining with the replacement. */
  lemma {:induction false} ReplaceAllIsSplitJoin(s: string, pat: string, rep: string)
    requires pat != []
    ensures ReplaceAll(s, pat, rep) == Join(SplitOn(s, pat), rep)
    decreases |s|
  {
    if |s| < |pat| {
    } else if s[..|pat|] == pat {
      ReplaceAllIsSplitJoin(s[|pat|..], pat, rep);
      var rest := SplitOn(s[|pat|..], pat);
      assert ([[]] + rest)[1..] == rest;
    } else {
      ReplaceAllIsSplitJoin(s[1..], pat, rep);
      JoinConsHead(s[0], SplitOn(s[1..], pat), rep);
    }
  }

  /** An empty first field contributes only the separator. */
  lemma JoinEmptyHead(fields: seq<string>, sep: string)
    requires fields != []
    ensures Join([[]] + fields, sep) == sep + Join(fields, sep)
  {
    assert ([[]] + fields)[1..] == fields;
  }

  /** Joining the pieces with the separator gives the string back. */
  lemma {:induction false} JoinSplitOn(s: string, sep: string)
    requires sep != []
    ensures Join(SplitOn(s, sep), sep) == s
    decreases |s|
  {
    if |s| < |sep| {
    } else if s[..|sep|] == sep {
      JoinSplitOn(s[|sep|..], sep);
      JoinEmptyHead(SplitOn(s[|sep|..], sep), sep);
      assert s == sep + s[|sep|..];
    } else {
      JoinSplitOn(s[1..], sep);
      JoinConsHead(s[0], SplitOn(s[1..], sep), sep);
      assert s == [s[0]] + s[1..];
    }
  }

  /** What gsub does is exhaustive: the text is the pieces joined by the pattern,
      no piece holds the pattern, and the result is the same pieces joined by the
      replacement. */
  lemma ReplaceAllExhaustive(s: string, pat: string, rep: string)
    requires pat != []
    ensures var pieces := SplitOn(s, pat);
      && Join(pieces, pat) == s
      && (forall f :: f in pieces ==> !Contains(f, pat))
      && ReplaceAll(s, pat, rep) == Join(pieces, rep)
  {
    JoinSplitOn(s, pat);
    SplitOnFree(s, pat);
    ReplaceAllIsSplitJoin(s, pat, rep);
  }

  /** A pattern that does not occur leaves the text unchanged. */
  lemma {:induction false} ReplaceAllAbsent(s: string, pat: string, rep: string)
    requires pat != [] && !Contains(s, pat)
    ensures ReplaceAll(s, pat, rep) == s
    decreases |s|
  {
    if |s| >= |pat| {
      ReplaceAllAbsent(s[1..], pat, rep);
    }
  }

  /** A one-character pattern occurs exactly when the character does. */
  lemma {:induction false} ContainsChar(s: string, c: char)
    ensures Contains(s, [c]) <==> c in s
    decreases |s|
  {
    if s != [] {
      ContainsChar(s[1..], c);
      assert s == [s[0]] + s[1..];
    }
  }

  /** Splitting at a one-character separator undoes joining with it, when no
      field holds that character. */
  lemma {:induction false} SplitOnJoin(fields: seq<string>, c: char)
    requires fields != []
    requires forall f :: f in fields ==> c !in f
    ensures SplitOn(Join(fields, [c]), [c]) == fields
    decreases |fields|, |fields[0]|, 1
  {
    if fields[0] == [] {
      SplitOnJoinEmptyHead(fields, c);
    } else {
      SplitOnJoinCharHead(fields, c);
    }
  }

  /** SplitOnJoin when the first field is empty: the text starts with the separator. */
  lemma {:induction false} SplitOnJoinEmptyHead(fields: seq<string>, c: char)
    requires fields != [] && fields[0] == []
    requires forall f :: f in fields ==> c !in f
    ensures SplitOn(Join(fields, [c]), [c]) == fields
    decreases |fields|, |fields[0]|, 0
  {
    if |fields| > 1 {
      var tail := fields[1..];
      assert forall f :: f in tail ==> c !in f;
      SplitOnJoin(tail, c);
      assert Join(fields, [c]) == [] + [c] + Join(tail, [c]);
      SplitOnLeadingSep(Join(tail, [c]), c);
      assert fields == [[]] + tail;
    }
  }

  /** A text that starts with a one-character separator splits into an empty piece
      followed by the pieces of the rest. */
  lemma SplitOnLeadingSep(t: string, c: char)
    ensures SplitOn([c] + t, [c]) == [[]] + SplitOn(t, [c])
  {
    var s := [c] + t;
    assert s[..1] == [c] && s[1..] == t;
  }

  /** SplitOnJoin when the first field starts with a character other than the separator. */
  lemma {:induction false} SplitOnJoinCharHead(fields: seq<string>, c: char)
    requires fields != [] && fields[0] != []
    requires forall f :: f in fields ==> c !in f
    ensures SplitOn(Join(fields, [c]), [c]) == fields
    decreases |fields|, |fields[0]|, 0
  {
    var head := fields[0];
    var s := Join(fields, [c]);
    var shorter := [head[1..]] + fields[1..];
    assert forall f :: f in shorter ==> c !in f by {
      assert forall x :: x in head[1..] ==> x in head;
    }
    SplitOnJoin(shorter, c);
    JoinConsHead(head[0], shorter, [c]);
    assert [head[0]] + shorter[0] == head;
    assert [[head[0]] + shorter[0]] + shorter[1..] == fields;
    assert s == [head[0]] + Join(shorter, [c]);
    assert head in fields;
    assert head[0] in head;
    assert s[0] == head[0] && head[0] != c;
    assert s[1..] == Join(shorter, [c]);
  }

  /** Drops the empty strings at the end of a list of fields. */
  function DropTrailingEmpty(fields: seq<string>): (r: seq<string>)
    ensures r <= fields
    ensures r == [] || r[|r| - 1] != []
    decreases |fields|
  {
    if fields == [] || fields[|fields| - 1] != [] then fields
    else DropTrailingEmpty(fields[..|fields| - 1])
  }

  /** A trailing empty field is dropped. */
  lemma DropTrailingEmptySnoc(fields: seq<string>)
    ensures DropTrailingEmpty(fields + [[]]) == DropTrailingEmpty(fields)
  {
    assert (fields + [[]])[..|fields|] == fields;
  }

  /** String#split(sep) for a separator other than a single space: the pieces
      between occurrences of `sep`, with trailing empty pieces removed. */
  function RubySplit(s: string, sep: string): (r: seq<string>)
    requires sep != []
    ensures r == [] || r[|r| - 1] != []
  {
    DropTrailingEmpty(SplitOn(s, sep))
  }

  /** Splitting a joined list gives the list back, as long as no field holds the
      separator and the last field is not empty. */
  lemma RubySplitJoin(fields: seq<string>, c: char)
    requires forall f :: f in fields ==> c !in f
    requires fields == [] || fields[|fields| - 1] != []
    ensures RubySplit(Join(fields, [c]), [c]) == fields
  {
    if fields != [] {
      SplitOnJoin(fields, c);
    }
  }

  /** The pieces of a Ruby split hold no separator character. */
  lemma RubySplitFieldsFree(s: string, c: char)
    ensures forall f :: f in RubySplit(s, [c]) ==> c !in f
  {
    var pieces := SplitOn(s, [c]);
    var r := RubySplit(s, [c]);
    SplitOnFree(s, [c]);
    assert forall f :: f in r ==> f in pieces by {
      assert forall k :: 0 <= k < |r| ==> r[k] == pieces[k];
    }
    forall f | f in r ensures c !in f {
      ContainsChar(f, c);
    }
  }

  /** A separator at the end opens a new, empty last piece. */
  lemma {:induction false} SplitOnSnocSep(s: string, c: char)
    ensures SplitOn(s + [c], [c]) == SplitOn(s, [c]) + [[]]
    decreases |s|
  {
    var t := s + [c];
    if s == [] {
      assert t == [c] && t[..1] == [c] && t[1..] == [];
    } else {
      assert t[..1] == s[..1] == [s[0]];
      assert t[1..] == s[1..] + [c];
      SplitOnSnocSep(s[1..], c);
      var rest := SplitOn(s[1..], [c]);
      if s[0] != c {
        assert (rest + [[]])[1..] == rest[1..] + [[]];
      }
    }
  }

  /** Any other character at the end extends the last piece. */
  lemma {:induction false} SplitOnSnocOther(s: string, c: char, ch: char)
    requires ch != c
    ensures var p := SplitOn(s, [c]);
      SplitOn(s + [ch], [c]) == p[..|p| - 1] + [p[|p| - 1] + [ch]]
    decreases |s|
  {
    var t := s + [ch];
    if s == [] {
      assert t == [ch] && t[..1] == [ch] && t[1..] == [];
      assert SplitOn(s, [c]) == [[]];
      assert SplitOn(t, [c]) == [[ch] + []] + [[]][1..];
      var empty: string := [];
      assert [ch] + empty == [ch];
      assert [empty][1..] == [];
      var p := SplitOn(s, [c]);
      assert p[..|p| - 1] + [p[|p| - 1] + [ch]] == [[ch]];
    } else {
      assert t[..1] == s[..1] == [s[0]];
      assert t[1..] == s[1..] + [ch];
      SplitOnSnocOther(s[1..], c, ch);
      var rest := SplitOn(s[1..], [c]);
      var longer := SplitOn(s[1..] + [ch], [c]);
      if s[0] != c {
        assert SplitOn(s, [c]) == [[s[0]] + rest[0]] + rest[1..];
        assert SplitOn(t, [c]) == [[s[0]] + longer[0]] + longer[1..];
        ExtendLastPiece([s[0]], rest, longer, ch);
      } else {
        assert SplitOn(s, [c]) == [[]] + rest;
        assert SplitOn(t, [c]) == [[]] + longer;
        PrependPiece([], rest, longer, ch);
      }
    }
  }

  /** Extending the last piece commutes with prefixing the first one. */
  lemma ExtendLastPiece(h: string, rest: seq<string>, longer: seq<string>, ch: char)
    requires rest != [] && longer == rest[..|rest| - 1] + [rest[|rest| - 1] + [ch]]
    ensures var p := [h + rest[0]] + rest[1..];
      [h + longer[0]] + longer[1..] == p[..|p| - 1] + [p[|p| - 1] + [ch]]
  {
    if |rest| == 1 {
      assert longer == [rest[0] + [ch]];
      assert h + (rest[0] + [ch]) == (h + rest[0]) + [ch];
    } else {
      var p := [h + rest[0]] + rest[1..];
      assert longer[0] == rest[0];
      assert longer[1..] == rest[1..|rest| - 1] + [rest[|rest| - 1] + [ch]];
      assert p[..|p| - 1] == [h + rest[0]] + rest[1..|rest| - 1];
    }
  }

  /** Extending the last piece commutes with adding a piece in front. */
  lemma PrependPiece(x: string, rest: seq<string>, longer: seq<string>, ch: char)
    requires rest != [] && longer == rest[..|rest| - 1] + [rest[|rest| - 1] + [ch]]
    ensures var p := [x] + rest;
      [x] + longer == p[..|p| - 1] + [p[|p| - 1] + [ch]]
  {
    var p := [x] + rest;
    assert p[..|p| - 1] == [x] + rest[..|rest| - 1];
  }

  /** The characters after the last '.' (all of `s` when it has none). */
  function LastSegment(s: string): (r: string)
    ensures |r| <= |s| && '.' !in r && r == s[|s| - |r|..]
    decreases |s|
  {
    if s == [] || s[|s| - 1] == '.' then []
    else
      var init := s[..|s| - 1];
      var r := LastSegment(init);
      assert init[|init| - |r|..] + [s[|s| - 1]] == s[|s| - |r| - 1..];
      r + [s[|s| - 1]]
  }

  /** The last segment is the last piece of the split at '.'. */
  lemma {:induction false} LastSegmentIsLastPiece(s: string)
    ensures var p := SplitOn(s, "."); LastSegment(s) == p[|p| - 1]
    decreases |s|
  {
    if s != [] {
      var init := s[..|s| - 1];
      assert s == init + [s[|s| - 1]];
      SplitOnSnocSep(init, '.');
      if s[|s| - 1] != '.' {
        SplitOnSnocOther(init, '.', s[|s| - 1]);
      }
      LastSegmentIsLastPiece(init);
    }
  }

  /** `name.split(".")[-1]`: the last segment once trailing dots are dropped, or
      None (Ruby's nil) when nothing but dots is left. SimpleNameIsLastPiece shows
      it is the last piece of the Ruby split. */
  function SimpleName(qualified: string): Option<string>
    decreases |qualified|
  {
    if qualified == [] then None
    else if qualified[|qualified| - 1] == '.' then SimpleName(qualified[..|qualified| - 1])
    else Some(LastSegment(qualified))
  }

  /** SimpleName is the last element of String#split("."), nil for an empty split. */
  lemma {:induction false} SimpleNameIsLastPiece(qualified: string)
    ensures var parts := RubySplit(qualified, ".");
      SimpleName(qualified) == if parts == [] then None else Some(parts[|parts| - 1])
    decreases |qualified|
  {
    if qualified == [] {
      assert SplitOn(qualified, ".") == [[]];
    } else {
      var init := qualified[..|qualified| - 1];
      var ch := qualified[|qualified| - 1];
      assert qualified == init + [ch];
      var p := SplitOn(init, ".");
      if ch == '.' {
        SplitOnSnocSep(init, '.');
        SimpleNameIsLastPiece(init);
        DropTrailingEmptySnoc(p);
      } else {
        SplitOnSnocOther(init, '.', ch);
        LastSegmentIsLastPiece(init);
        var pieces := p[..|p| - 1] + [p[|p| - 1] + [ch]];
        assert pieces[|pieces| - 1] != [];
        assert RubySplit(qualified, ".") == pieces;
      }
    }
  }

  /** The simple name of a dotted name built from dot-free parts is its last part. */
  lemma SimpleNameOfJoin(parts: seq<string>)
    requires parts != [] && parts[|parts| - 1] != []
    requires forall f :: f in parts ==> '.' !in f
    ensures SimpleName(Join(parts, ".")) == Some(parts[|parts| - 1])
  {
    RubySplitJoin(parts, '.');
    SimpleNameOfSplit(Join(parts, "."), parts);
  }

  /** A split with pieces gives the last piece as the simple name. */
  lemma SimpleNameOfSplit(qualified: string, parts: seq<string>)
    requires RubySplit(qualified, ".") == parts && parts != []
    ensures SimpleName(qualified) == Some(parts[|parts| - 1])
  {
    SimpleNameIsLastPiece(qualified);
  }

  /** The character of a decimal digit. */
  function DigitChar(d: nat): (c: char)
    requires d < 10
    ensures '0' <= c <= '9'
  {
    (('0' as int) + d) as char
  }

  predicate IsDigits(s: string) {
    forall k :: 0 <= k < |s| ==> '0' <= s[k] <= '9'
  }

  /** Integer#to_s for a non-negative integer: decimal digits, most significant first. */
  function DecimalString(n: nat): (r: string)
    ensures r != [] && IsDigits(r)
    ensures r[0] == '0' ==> n == 0
    decreases n
  {
    if n < 10 then [DigitChar(n)] else DecimalString(n / 10) + [DigitChar(n % 10)]
  }

  /** The number a string of decimal digits denotes. */
  function DecimalValue(s: string): nat
    requires IsDigits(s)
    decreases |s|
  {
    if s == [] then 0
    else 10 * DecimalValue(s[..|s| - 1]) + ((s[|s| - 1] as int) - ('0' as int))
  }

  /** Reading back the decimal text of a number gives the number. */
  lemma {:induction false} DecimalRoundTrip(n: nat)
    ensures DecimalValue(DecimalString(n)) == n
    decreases n
  {
    if n >= 10 {
      DecimalRoundTrip(n / 10);
      var s := DecimalString(n);
      assert s[..|s| - 1] == DecimalString(n / 10);
    }
  }
}
