/**
 * The three functions of Go's `strings` package that the trace parser uses:
 * `Split`, `HasPrefix` and `TrimPrefix`, on strings seen as `seq<char>`.
 * `Split` is modelled for a one-character separator, the only kind the
 * parser passes (`"\n"`).
 */
module GoStrings {

  /** Number of occurrences of `c` in `s`. */
  function Count(s: string, c: char): (n: nat)
    ensures n <= |s|
    ensures n == 0 <==> c !in s
  {
    if s == [] then 0
    else (if s[0] == c then 1 else 0) + Count(s[1..], c)
  }

  /**
   * Go's `strings.Split(s, string(sep))`: the maximal separator-free pieces
   * of `s`, in order. With n separators there are n + 1 pieces, so the empty
   * string splits to `[""]` and a trailing separator yields a trailing `""`.
   */
  function Split(s: string, sep: char): (pieces: seq<string>)
    ensures |pieces| == Count(s, sep) + 1
    ensures forall i :: 0 <= i < |pieces| ==> sep !in pieces[i]
    decreases |s|
  {
    if s == [] then [""]
    else
      var rest := Split(s[1..], sep);
      if s[0] == sep then [""] + rest
      else [[s[0]] + rest[0]] + rest[1..]
  }

  /**
   * The pieces of a non-empty sequence joined with `sep` between them, used
   * as the reference inverse of `Split` (Go's `strings.Join` also accepts an
   * empty slice, which `Split` never returns).
   */
  function Join(pieces: seq<string>, sep: char): string
    requires |pieces| >= 1
  {
    if |pieces| == 1 then pieces[0]
    else pieces[0] + [sep] + Join(pieces[1..], sep)
  }

  /** Go's `strings.HasPrefix(s, prefix)`. */
  predicate HasPrefix(s: string, prefix: string)
  {
    |prefix| <= |s| && s[..|prefix|] == prefix
  }

  /**
   * Go's `strings.TrimPrefix(s, prefix)`: `s` without one leading `prefix`,
   * or `s` unchanged when it does not start with `prefix`.
   */
  function TrimPrefix(s: string, prefix: string): (r: string)
    ensures HasPrefix(s, prefix) ==> prefix + r == s
    ensures !HasPrefix(s, prefix) ==> r == s
  {
    if HasPrefix(s, prefix) then s[|prefix|..] else s
  }

  /** `HasPrefix` holds exactly of the strings that are `prefix` followed by something. */
  lemma HasPrefixIff(s: string, prefix: string)
    ensures HasPrefix(s, prefix) <==> exists rest :: s == prefix + rest
  {
    if HasPrefix(s, prefix) {
      assert s == prefix + s[|prefix|..];
    }
  }

  /** Trimming a prefix that was just prepended gives back the original string. */
  lemma TrimPrefixOfConcat(prefix: string, rest: string)
    ensures HasPrefix(prefix + rest, prefix)
    ensures TrimPrefix(prefix + rest, prefix) == rest
  {
  }

  /** A separator-free string followed by more text: its characters join the first piece. */
  lemma {:induction false} SplitAfterPlain(p: string, s: string, sep: char)
    requires sep !in p
    ensures Split(p + s, sep) == [p + Split(s, sep)[0]] + Split(s, sep)[1..]
    decreases |p|
  {
    if p != [] {
      var whole := Split(s, sep);
      var rest := Split(p[1..] + s, sep);
      assert (p + s)[0] == p[0] && p[0] != sep;
      assert (p + s)[1..] == p[1..] + s;
      assert Split(p + s, sep) == [[p[0]] + rest[0]] + rest[1..];
      SplitAfterPlain(p[1..], s, sep);
      assert rest == [p[1..] + whole[0]] + whole[1..];
      assert rest[0] == p[1..] + whole[0];
      assert rest[1..] == whole[1..];
      assert [p[0]] + (p[1..] + whole[0]) == p + whole[0];
    } else {
      var whole := Split(s, sep);
      assert p + s == s;
      assert p + whole[0] == whole[0];
      assert whole == [whole[0]] + whole[1..];
    }
  }

  /** A leading separator contributes exactly one empty piece. */
  lemma SplitAfterSep(s: string, sep: char)
    ensures Split([sep] + s, sep) == [""] + Split(s, sep)
  {
  }

  /** `Join` on a sequence given as its first piece and the rest. */
  lemma JoinCons(first: string, rest: seq<string>, sep: char)
    requires |rest| >= 1
    ensures Join([first] + rest, sep) == first + [sep] + Join(rest, sep)
  {
  }

  /** Splitting then joining with the same separator gives back the string. */
  lemma {:induction false} SplitThenJoin(s: string, sep: char)
    ensures Join(Split(s, sep), sep) == s
    decreases |s|
  {
    if s != [] {
      var rest := Split(s[1..], sep);
      SplitThenJoin(s[1..], sep);
      assert s == [s[0]] + s[1..];
      if s[0] == sep {
        SplitAfterSep(s[1..], sep);
        JoinCons("", rest, sep);
      } else {
        SplitAfterPlain([s[0]], s[1..], sep);
        if |rest| > 1 {
          JoinCons([s[0]] + rest[0], rest[1..], sep);
          JoinCons(rest[0], rest[1..], sep);
          assert rest == [rest[0]] + rest[1..];
        }
      }
    }
  }

  /** A separator-free string is a single piece. */
  lemma SplitPlain(s: string, sep: char)
    requires sep !in s
    ensures Split(s, sep) == [s]
  {
    SplitAfterPlain(s, "", sep);
    assert s + "" == s;
  }

  /** Joining separator-free pieces and splitting again gives back the pieces. */
  lemma {:induction false} JoinThenSplit(pieces: seq<string>, sep: char)
    requires |pieces| >= 1
    requires forall i :: 0 <= i < |pieces| ==> sep !in pieces[i]
    ensures Split(Join(pieces, sep), sep) == pieces
  {
    if |pieces| == 1 {
      SplitPlain(pieces[0], sep);
    } else {
      var tail := Join(pieces[1..], sep);
      JoinThenSplit(pieces[1..], sep);
      SplitAfterSep(tail, sep);
      SplitAfterPlain(pieces[0], [sep] + tail, sep);
      var after := Split([sep] + tail, sep);
      assert after == [""] + pieces[1..];
      assert after[0] == "" && after[1..] == pieces[1..];
      assert Join(pieces, sep) == pieces[0] + ([sep] + tail);
      assert pieces[0] + after[0] == pieces[0];
      assert pieces == [pieces[0]] + pieces[1..];
    }
  }

  /** Splitting at one separator: the pieces of the left part, then those of the right part. */
  lemma {:induction false} SplitConcat(a: string, b: string, sep: char)
    ensures Split(a + [sep] + b, sep) == Split(a, sep) + Split(b, sep)
    decreases |a|
  {
    if a == [] {
      assert a + [sep] + b == [sep] + b;
      SplitAfterSep(b, sep);
    } else {
      var s := a + [sep] + b;
      assert s[0] == a[0];
      assert s[1..] == a[1..] + [sep] + b;
      SplitConcat(a[1..], b, sep);
    }
  }
}
