/**
  Python's string operations that the ASCII-art builder relies on, modelled on
  `string` (= `seq<char>`): `"".join(lines)`, `"\n".join(lines)`, and, as the
  inverse used to read an art block back, `s.split("\n")`.
 */
module Text {

  /** `s` contains no line break. */
  predicate NoNewline(s: string) {
    forall i :: 0 <= i < |s| ==> s[i] != '\n'
  }

  /** Every line of `lines` is free of line breaks. */
  predicate EachNoNewline(lines: seq<string>) {
    forall j :: 0 <= j < |lines| ==> NoNewline(lines[j])
  }

  /** Every character of `s` occurs in `alphabet`. */
  predicate Over(s: string, alphabet: string) {
    forall i :: 0 <= i < |s| ==> s[i] in alphabet
  }

  /** `"".join(lines)`. */
  function Concat(lines: seq<string>): string {
    if |lines| == 0 then "" else lines[0] + Concat(lines[1..])
  }

  /** `"\n".join(lines)`: the pieces in order with one line break between
      each two neighbours, so the text is as long as the pieces together plus
      one break fewer than there are pieces, and starts with the first piece. */
  function Join(lines: seq<string>): (r: string)
    ensures |r| == |Concat(lines)| + (if |lines| == 0 then 0 else |lines| - 1)
    ensures |lines| > 0 ==> lines[0] <= r
  {
    if |lines| == 0 then ""
    else if |lines| == 1 then lines[0]
    else lines[0] + "\n" + Join(lines[1..])
  }

  /** `s` with every line break deleted. */
  function Strip(s: string): (r: string)
    ensures NoNewline(r)
    ensures |r| <= |s|
  {
    if |s| == 0 then ""
    else if s[0] == '\n' then Strip(s[1..])
    else [s[0]] + Strip(s[1..])
  }

  /** `s.split("\n")`: always at least one piece, and no piece holds a line break. */
  function Split(s: string): (lines: seq<string>)
    ensures |lines| >= 1
    ensures EachNoNewline(lines)
  {
    if |s| == 0 then [""]
    else
      var rest := Split(s[1..]);
      if s[0] == '\n' then [""] + rest
      else [[s[0]] + rest[0]] + rest[1..]
  }

  lemma {:induction false} StripAppend(a: string, b: string)
    ensures Strip(a + b) == Strip(a) + Strip(b)
  {
    if |a| == 0 {
      assert a + b == b;
    } else {
      assert (a + b)[0] == a[0];
      assert (a + b)[1..] == a[1..] + b;
      StripAppend(a[1..], b);
    }
  }

  lemma {:induction false} StripNoNewline(s: string)
    requires NoNewline(s)
    ensures Strip(s) == s
  {
    if |s| > 0 {
      assert NoNewline(s[1..]);
      StripNoNewline(s[1..]);
    }
  }

  /** Deleting the line breaks of a joined block gives back the concatenated lines. */
  lemma {:induction false} StripJoin(lines: seq<string>)
    requires EachNoNewline(lines)
    ensures Strip(Join(lines)) == Concat(lines)
  {
    if |lines| == 1 {
      StripNoNewline(lines[0]);
      assert Concat(lines) == lines[0] + Concat([]);
    } else if |lines| > 1 {
      assert EachNoNewline(lines[1..]);
      StripJoin(lines[1..]);
      StripAppend(lines[0] + "\n", Join(lines[1..]));
      StripAppend(lines[0], "\n");
      StripNoNewline(lines[0]);
      assert Strip("\n") == "";
    }
  }

  /** Whatever survives `Strip` of `s` is in `alphabet`, so every character of
      `s` is a line break or in `alphabet`. */
  lemma {:induction false} StripAlphabet(s: string, alphabet: string)
    requires Over(Strip(s), alphabet)
    ensures forall i :: 0 <= i < |s| ==> s[i] == '\n' || s[i] in alphabet
  {
    if |s| > 0 {
      var tail := Strip(s[1..]);
      if s[0] != '\n' {
        assert Strip(s) == [s[0]] + tail;
        forall i | 0 <= i < |tail| ensures tail[i] in alphabet {
          assert Strip(s)[i + 1] == tail[i];
        }
        assert Strip(s)[0] == s[0];
      }
      StripAlphabet(s[1..], alphabet);
      forall i | 1 <= i < |s| ensures s[i] == '\n' || s[i] in alphabet {
        assert s[1..][i - 1] == s[i];
      }
    }
  }

  /** `"\n".join(s.split("\n")) == s` for every string. */
  lemma {:induction false} JoinSplit(s: string)
    ensures Join(Split(s)) == s
  {
    if |s| > 0 {
      var rest := Split(s[1..]);
      JoinSplit(s[1..]);
      if s[0] == '\n' {
        assert ([""] + rest)[1..] == rest;
        assert s == "\n" + s[1..];
      } else if |rest| == 1 {
        assert s == [s[0]] + s[1..];
      } else {
        var lines := [[s[0]] + rest[0]] + rest[1..];
        assert lines[1..] == rest[1..];
        assert s == [s[0]] + s[1..];
      }
    }
  }

  /** Splitting a string that starts with a line-free prefix `a` glues `a` onto
      the first piece of the rest. */
  lemma {:induction false} SplitPrefix(a: string, t: string)
    requires NoNewline(a)
    ensures Split(a + t) == [a + Split(t)[0]] + Split(t)[1..]
  {
    if |a| > 0 {
      assert NoNewline(a[1..]);
      SplitPrefix(a[1..], t);
      assert (a + t)[0] == a[0];
      assert (a + t)[1..] == a[1..] + t;
      assert [a[0]] + (a[1..] + Split(t)[0]) == a + Split(t)[0];
    } else {
      assert a + t == t;
      assert a + Split(t)[0] == Split(t)[0];
      assert Split(t) == [Split(t)[0]] + Split(t)[1..];
    }
  }

  /** `("\n".join(lines)).split("\n") == lines` for a non-empty list of
      line-free pieces. */
  lemma {:induction false} SplitJoin(lines: seq<string>)
    requires |lines| >= 1
    requires EachNoNewline(lines)
    ensures Split(Join(lines)) == lines
  {
    if |lines| == 1 {
      SplitPrefix(lines[0], "");
      assert lines[0] + "" == lines[0];
    } else {
      var rest := lines[1..];
      assert EachNoNewline(rest);
      SplitJoin(rest);
      assert lines[0] + "\n" + Join(rest) == lines[0] + ("\n" + Join(rest));
      var t := "\n" + Join(rest);
      SplitPrefix(lines[0], t);
      assert t[0] == '\n' && t[1..] == Join(rest);
      assert Split(t) == [""] + rest;
      assert Split(t)[0] == "" && Split(t)[1..] == rest;
      assert lines[0] + "" == lines[0];
      assert lines == [lines[0]] + rest;
    }
  }
}
