/**
 * The row parser: `line.Split(',')` as applied to the header line and to every
 * data line (src/LambdaFunction/Function.cs lines 124 and 133). There is no
 * quoting or escaping; every delimiter is a field boundary.
 */
module Fields {

  /** The delimiter the transcoder splits on. */
  const Comma: char := ','

  /** Number of occurrences of `d` in `s`. */
  function Occurrences(s: string, d: char): nat
  {
    if |s| == 0 then 0 else (if s[0] == d then 1 else 0) + Occurrences(s[1..], d)
  }

  /** `parts` joined with `sep` between consecutive parts. */
  function Glue(parts: seq<string>, sep: string): string
    requires |parts| > 0
  {
    if |parts| == 1 then parts[0] else parts[0] + sep + Glue(parts[1..], sep)
  }

  /** The fields glued back together with one `d` between neighbours. */
  function Join(fields: seq<string>, d: char): string
    requires |fields| > 0
  {
    Glue(fields, [d])
  }

  /**
   * `String.Split(char)` with no options: the maximal runs between delimiters,
   * empty runs included. It never fails; the empty string gives one empty field.
   */
  function Split(s: string, d: char): (fields: seq<string>)
    ensures |fields| == Occurrences(s, d) + 1
    ensures forall i :: 0 <= i < |fields| ==> d !in fields[i]
    ensures Join(fields, d) == s
    decreases |s|
  {
    if |s| == 0 then [""]
    else if s[0] == d then
      var rest := Split(s[1..], d);
      assert ([""] + rest)[1..] == rest;
      [""] + rest
    else
      var rest := Split(s[1..], d);
      var fields := [[s[0]] + rest[0]] + rest[1..];
      assert fields[1..] == rest[1..];
      assert s == [s[0]] + s[1..];
      fields
  }

  /** Splitting a line that holds no delimiter gives that line as the only field. */
  lemma {:induction false} SplitWithoutDelimiter(f: string, d: char)
    requires d !in f
    ensures Split(f, d) == [f]
  {
    var fields := Split(f, d);
    assert |fields| == 1 by {
      OccurrencesAbsent(f, d);
    }
  }

  /** A string without `d` holds no occurrence of `d`. */
  lemma {:induction false} OccurrencesAbsent(s: string, d: char)
    requires d !in s
    ensures Occurrences(s, d) == 0
  {
    if |s| > 0 {
      assert d !in s[1..];
      OccurrencesAbsent(s[1..], d);
    }
  }

  /** A leading delimiter-free field followed by `d` splits off as one field. */
  lemma {:induction false} SplitLeadingField(f: string, t: string, d: char)
    requires d !in f
    ensures Split(f + [d] + t, d) == [f] + Split(t, d)
    decreases |f|
  {
    if |f| == 0 {
      assert f + [d] + t == [d] + t;
      assert ([d] + t)[1..] == t;
    } else {
      var s := f + [d] + t;
      assert s[0] == f[0] && s[0] != d;
      assert s[1..] == f[1..] + [d] + t;
      assert d !in f[1..];
      SplitLeadingField(f[1..], t, d);
      assert f == [f[0]] + f[1..];
    }
  }

  /**
   * Round trip in the other direction: delimiter-free fields joined with `d`
   * split back into exactly those fields.
   */
  lemma {:induction false} SplitJoin(fields: seq<string>, d: char)
    requires |fields| > 0
    requires forall i :: 0 <= i < |fields| ==> d !in fields[i]
    ensures Split(Join(fields, d), d) == fields
    decreases |fields|
  {
    if |fields| == 1 {
      SplitWithoutDelimiter(fields[0], d);
    } else {
      SplitJoin(fields[1..], d);
      SplitLeadingField(fields[0], Join(fields[1..], d), d);
      assert fields == [fields[0]] + fields[1..];
    }
  }

  /** Empty fields are kept: `"a,,c"` splits into three fields, the middle one empty. */
  lemma SplitKeepsEmptyFields()
    ensures Split("a,,c", Comma) == ["a", "", "c"]
    ensures Split("", Comma) == [""]
  {
    assert "a,,c" == "a" + [Comma] + ("" + [Comma] + "c");
    SplitLeadingField("a", "" + [Comma] + "c", Comma);
    SplitLeadingField("", "c", Comma);
    SplitWithoutDelimiter("c", Comma);
  }
}
