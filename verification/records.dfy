/**
 * The record builder: the `Dictionary<string,string>` filled from the header
 * fields and one row's fields (src/LambdaFunction/Function.cs lines 135-139).
 *
 * A record is an association list with distinct keys kept in first-insertion
 * order, which is the order in which the dictionary enumerates (and so
 * serialises) its entries when nothing is removed from it.
 */
module Records {
  import opened Wrappers

  type Record = seq<(string, string)>

  /** The keys of a record, in order. */
  function KeyList(rec: Record): (ks: seq<string>)
    ensures |ks| == |rec|
    ensures forall i :: 0 <= i < |rec| ==> ks[i] == rec[i].0
  {
    if |rec| == 0 then [] else [rec[0].0] + KeyList(rec[1..])
  }

  /** No key appears twice, as in a dictionary. */
  predicate DistinctKeys(rec: Record)
  {
    var ks := KeyList(rec);
    forall i, j :: 0 <= i < j < |ks| ==> ks[i] != ks[j]
  }

  /** The value stored under `k`, if any (the dictionary indexer's read side). */
  function Lookup(rec: Record, k: string): (v: Option<string>)
    ensures v.None? <==> k !in KeyList(rec)
  {
    if |rec| == 0 then None
    else if rec[0].0 == k then Some(rec[0].1)
    else Lookup(rec[1..], k)
  }

  /**
   * `record[k] = v`: overwrites the value of an existing key in place, and
   * otherwise adds the key at the end.
   */
  function Assign(rec: Record, k: string, v: string): Record
  {
    if |rec| == 0 then [(k, v)]
    else if rec[0].0 == k then [(k, v)] + rec[1..]
    else [rec[0]] + Assign(rec[1..], k, v)
  }

  /** After `record[k] = v`, reading `k` gives `v` and every other key reads as before. */
  lemma {:induction false} AssignLookup(rec: Record, k: string, v: string, k': string)
    ensures Lookup(Assign(rec, k, v), k') == if k' == k then Some(v) else Lookup(rec, k')
  {
    if |rec| > 0 && rec[0].0 != k {
      AssignLookup(rec[1..], k, v, k');
    }
  }

  /** Assignment keeps the key order, appending a key only when it is new. */
  lemma {:induction false} AssignKeys(rec: Record, k: string, v: string)
    ensures KeyList(Assign(rec, k, v)) == if k in KeyList(rec) then KeyList(rec) else KeyList(rec) + [k]
  {
    if |rec| > 0 {
      assert KeyList(rec) == [rec[0].0] + KeyList(rec[1..]);
      if rec[0].0 != k {
        AssignKeys(rec[1..], k, v);
        var r := Assign(rec, k, v);
        assert r == [rec[0]] + Assign(rec[1..], k, v);
        assert KeyList(r) == [rec[0].0] + KeyList(Assign(rec[1..], k, v));
      } else {
        assert KeyList(Assign(rec, k, v)) == [k] + KeyList(rec[1..]);
      }
    }
  }

  /** The header names in the order a dictionary first sees them, repeats dropped. */
  function FirstOccurrences(names: seq<string>): seq<string>
  {
    if |names| == 0 then []
    else
      var before := FirstOccurrences(names[..|names| - 1]);
      if names[|names| - 1] in before then before else before + [names[|names| - 1]]
  }

  /** The record the loop has built after its first `n` iterations. */
  function Zip(headers: seq<string>, values: seq<string>, n: nat): Record
    requires n <= |headers| && n <= |values|
  {
    if n == 0 then [] else Assign(Zip(headers, values, n - 1), headers[n - 1], values[n - 1])
  }

  /** The first `n` iterations build the first `n` header names, in first-occurrence order. */
  lemma {:induction false} ZipKeys(headers: seq<string>, values: seq<string>, n: nat)
    requires n <= |headers| && n <= |values|
    ensures KeyList(Zip(headers, values, n)) == FirstOccurrences(headers[..n])
  {
    if n > 0 {
      ZipKeys(headers, values, n - 1);
      assert headers[..n][..n - 1] == headers[..n - 1];
      AssignKeys(Zip(headers, values, n - 1), headers[n - 1], values[n - 1]);
    }
  }

  /** After the first `n` iterations a name has a value exactly when it is among the first `n` header names. */
  lemma {:induction false} ZipDomain(headers: seq<string>, values: seq<string>, n: nat, k: string)
    requires n <= |headers| && n <= |values|
    ensures Lookup(Zip(headers, values, n), k).Some? <==> k in headers[..n]
  {
    if n > 0 {
      ZipDomain(headers, values, n - 1, k);
      assert headers[..n] == headers[..n - 1] + [headers[n - 1]];
      AssignLookup(Zip(headers, values, n - 1), headers[n - 1], values[n - 1], k);
    }
  }

  /** A name maps to the value at the last of the first `n` positions holding it. */
  lemma {:induction false} ZipLastValue(headers: seq<string>, values: seq<string>, n: nat, j: nat)
    requires j < n <= |headers| && n <= |values|
    requires forall j' :: j < j' < n ==> headers[j'] != headers[j]
    ensures Lookup(Zip(headers, values, n), headers[j]) == Some(values[j])
  {
    AssignLookup(Zip(headers, values, n - 1), headers[n - 1], values[n - 1], headers[j]);
    if j < n - 1 {
      assert headers[n - 1] != headers[j];
      ZipLastValue(headers, values, n - 1, j);
    }
  }

  /**
   * What the first `n` iterations have built: distinct keys, the first `n`
   * header names in first-occurrence order, and under each name the value at
   * the last of those positions that holds it.
   */
  lemma ZipContract(headers: seq<string>, values: seq<string>, n: nat)
    requires n <= |headers| && n <= |values|
    ensures DistinctKeys(Zip(headers, values, n))
    ensures KeyList(Zip(headers, values, n)) == FirstOccurrences(headers[..n])
    ensures forall k :: Lookup(Zip(headers, values, n), k).Some? <==> k in headers[..n]
    ensures forall j :: 0 <= j < n && (forall j' :: j < j' < n ==> headers[j'] != headers[j]) ==>
              Lookup(Zip(headers, values, n), headers[j]) == Some(values[j])
  {
    ZipKeys(headers, values, n);
    FirstOccurrencesDistinct(headers[..n]);
    forall k
      ensures Lookup(Zip(headers, values, n), k).Some? <==> k in headers[..n]
    {
      ZipDomain(headers, values, n, k);
    }
    forall j | 0 <= j < n && (forall j' :: j < j' < n ==> headers[j'] != headers[j])
      ensures Lookup(Zip(headers, values, n), headers[j]) == Some(values[j])
    {
      ZipLastValue(headers, values, n, j);
    }
  }

  /** `FirstOccurrences` never repeats a name. */
  lemma {:induction false} FirstOccurrencesDistinct(names: seq<string>)
    ensures forall i, j :: 0 <= i < j < |FirstOccurrences(names)| ==>
              FirstOccurrences(names)[i] != FirstOccurrences(names)[j]
  {
    if |names| > 0 {
      FirstOccurrencesDistinct(names[..|names| - 1]);
    }
  }

  /** `FirstOccurrences` keeps exactly the names it is given. */
  lemma {:induction false} FirstOccurrencesSet(names: seq<string>)
    ensures forall k :: k in FirstOccurrences(names) <==> k in names
  {
    if |names| > 0 {
      var init := names[..|names| - 1];
      FirstOccurrencesSet(init);
      assert names == init + [names[|names| - 1]];
    }
  }

  /**
   * The `for (int i = 0; i < headers.Length; i++)` loop from iteration `i` on,
   * with `rec` built so far. Indexing `values[i]` past its end throws, which is
   * the `None` result; the partially built record is then lost.
   */
  function Fill(headers: seq<string>, values: seq<string>, i: nat, rec: Record): (r: Option<Record>)
    requires i <= |headers|
    decreases |headers| - i
  {
    if i == |headers| then Some(rec)
    else if i >= |values| then None
    else Fill(headers, values, i + 1, Assign(rec, headers[i], values[i]))
  }

  /** The loop run from the start, beginning with an empty dictionary. */
  function BuildRecord(headers: seq<string>, values: seq<string>): (r: Option<Record>)
  {
    Fill(headers, values, 0, [])
  }

  /** From an intermediate state, the loop finishes with the zip of all headers. */
  lemma {:induction false} FillFinishes(headers: seq<string>, values: seq<string>, i: nat)
    requires i <= |headers| && i <= |values|
    ensures Fill(headers, values, i, Zip(headers, values, i)) ==
              if |values| < |headers| then None else Some(Zip(headers, values, |headers|))
    decreases |headers| - i
  {
    if i < |headers| && i < |values| {
      assert Zip(headers, values, i + 1) == Assign(Zip(headers, values, i), headers[i], values[i]);
      FillFinishes(headers, values, i + 1);
    }
  }

  /** The record builder throws exactly when the row has fewer fields than the header. */
  lemma BuildRecordFails(headers: seq<string>, values: seq<string>)
    ensures BuildRecord(headers, values).None? <==> |values| < |headers|
  {
    FillFinishes(headers, values, 0);
  }

  /**
   * The record builder's contract. It throws exactly when the row is shorter
   * than the header. Otherwise the key set is the header's name set, in
   * first-insertion order, and each name maps to the value at the LAST header
   * position holding it (a later duplicate overwrites an earlier one).
   */
  lemma BuildRecordContract(headers: seq<string>, values: seq<string>)
    ensures BuildRecord(headers, values).Some? <==> |values| >= |headers|
    ensures BuildRecord(headers, values).Some? ==>
              var rec := BuildRecord(headers, values).value;
              && DistinctKeys(rec)
              && KeyList(rec) == FirstOccurrences(headers)
              && (forall k :: Lookup(rec, k).Some? <==> k in headers)
              && (forall j :: 0 <= j < |headers| && (forall j' :: j < j' < |headers| ==> headers[j'] != headers[j]) ==>
                    Lookup(rec, headers[j]) == Some(values[j]))
  {
    FillFinishes(headers, values, 0);
    if |values| >= |headers| {
      ZipContract(headers, values, |headers|);
      assert headers[..|headers|] == headers;
    }
  }

  /** Only the first `n` values matter to the first `n` iterations. */
  lemma {:induction false} ZipPrefix(headers: seq<string>, values: seq<string>, values': seq<string>, n: nat)
    requires n <= |headers| && n <= |values| && n <= |values'|
    requires values[..n] == values'[..n]
    ensures Zip(headers, values, n) == Zip(headers, values', n)
  {
    if n > 0 {
      assert values[..n - 1] == values[..n][..n - 1];
      assert values'[..n - 1] == values'[..n][..n - 1];
      assert values[n - 1] == values[..n][n - 1];
      assert values'[n - 1] == values'[..n][n - 1];
      ZipPrefix(headers, values, values', n - 1);
    }
  }

  /** Row fields beyond the header's length are ignored. */
  lemma ExtraFieldsIgnored(headers: seq<string>, values: seq<string>)
    requires |values| >= |headers|
    ensures BuildRecord(headers, values) == BuildRecord(headers, values[..|headers|])
  {
    var prefix := values[..|headers|];
    FillFinishes(headers, values, 0);
    FillFinishes(headers, prefix, 0);
    assert values[..|headers|] == prefix[..|headers|];
    ZipPrefix(headers, values, prefix, |headers|);
  }

  /** The record pairing each header with the value at the same position. */
  function Pairs(headers: seq<string>, values: seq<string>): (rec: Record)
    requires |headers| <= |values|
  {
    seq(|headers|, i requires 0 <= i < |headers| => (headers[i], values[i]))
  }

  /** A header name not seen before is appended with its value. */
  lemma ZipNewName(headers: seq<string>, values: seq<string>, n: nat)
    requires 0 < n <= |headers| && n <= |values|
    requires headers[n - 1] !in headers[..n - 1]
    ensures Zip(headers, values, n) == Zip(headers, values, n - 1) + [(headers[n - 1], values[n - 1])]
  {
    ZipKeys(headers, values, n - 1);
    FirstOccurrencesSet(headers[..n - 1]);
    AssignNewKey(Zip(headers, values, n - 1), headers[n - 1], values[n - 1]);
  }

  /** With distinct header names the record pairs each header with its value, position by position. */
  lemma {:induction false} ZipDistinct(headers: seq<string>, values: seq<string>, n: nat)
    requires n <= |headers| && n <= |values|
    requires forall i, j :: 0 <= i < j < |headers| ==> headers[i] != headers[j]
    ensures |Zip(headers, values, n)| == n
    ensures forall i :: 0 <= i < n ==> Zip(headers, values, n)[i] == (headers[i], values[i])
  {
    if n > 0 {
      ZipDistinct(headers, values, n - 1);
      var earlier := headers[..n - 1];
      forall i | 0 <= i < |earlier|
        ensures earlier[i] != headers[n - 1]
      {
        assert earlier[i] == headers[i];
      }
      assert headers[n - 1] !in earlier;
      ZipNewName(headers, values, n);
    }
  }

  /** Assigning a key that is not present appends the pair. */
  lemma {:induction false} AssignNewKey(rec: Record, k: string, v: string)
    requires k !in KeyList(rec)
    ensures Assign(rec, k, v) == rec + [(k, v)]
  {
    if |rec| > 0 {
      assert rec[0].0 == KeyList(rec)[0];
      assert KeyList(rec[1..]) == KeyList(rec)[1..];
      AssignNewKey(rec[1..], k, v);
      assert rec == [rec[0]] + rec[1..];
    }
  }

  /** Distinct header names and a long enough row: one entry per header, in header order. */
  lemma BuildRecordDistinct(headers: seq<string>, values: seq<string>)
    requires |values| >= |headers|
    requires forall i, j :: 0 <= i < j < |headers| ==> headers[i] != headers[j]
    ensures BuildRecord(headers, values) == Some(Pairs(headers, values))
  {
    FillFinishes(headers, values, 0);
    ZipDistinct(headers, values, |headers|);
    assert Zip(headers, values, |headers|) == Pairs(headers, values);
  }

  /** A repeated header name keeps one entry, holding the later value. */
  lemma DuplicateHeaderOverwrites()
    ensures BuildRecord(["id", "name", "id"], ["1", "Ann", "2", "extra"]) ==
              Some([("id", "2"), ("name", "Ann")])
  {
    var h, v := ["id", "name", "id"], ["1", "Ann", "2", "extra"];
    var r1 := Assign([], "id", "1");
    assert r1 == [("id", "1")];
    var r2 := Assign(r1, "name", "Ann");
    assert r2 == [("id", "1"), ("name", "Ann")];
    var r3 := Assign(r2, "id", "2");
    assert r3 == [("id", "2"), ("name", "Ann")];
    assert Fill(h, v, 3, r3) == Some(r3);
  }
}
