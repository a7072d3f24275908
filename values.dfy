/** Option and Result, used for rejections and error paths. */
module Wrappers {

  datatype Option<+T> = None | Some(value: T)

  datatype Result<+T, +E> = Ok(value: T) | Err(error: E)
}

/**
  JSON values and records as the ingestion scripts see them after `resp.json()`.
  Numbers are rationals: Python compares the integer -99 and the float -99.0 as equal,
  and nothing else in the core does arithmetic on readings.
 */
module Values {
  import opened Wrappers

  /** One field value of a fetched record. Booleans, arrays and objects are opaque. */
  datatype Value = Null | Num(x: real) | Str(s: string) | Other(repr: string)

  /** A flat JSON object: field name to value. */
  type Record = map<string, Value>

  /** The fault code the station hardware emits for a bad reading. */
  const FaultCode: real := -99.0

  /** `v in [-99, None, ""]`: the sentinel, a null, or the empty string. */
  function IsFaulty(v: Value): (b: bool)
    ensures v.Null? ==> b
    ensures v.Num? ==> (b <==> v.x == FaultCode)
    ensures v.Str? ==> (b <==> v.s == "")
    ensures v.Other? ==> !b
  {
    v == Num(FaultCode) || v == Null || v == Str("")
  }

  /** `record.get(key)`: an absent key reads as None. */
  function Get(record: Record, key: string): (v: Value)
    ensures key in record ==> v == record[key]
    ensures key !in record ==> v == Null
  {
    if key in record then record[key] else Null
  }

  function Elems(s: seq<string>): set<string>
  {
    set x | x in s
  }

  predicate Distinct(s: seq<string>)
  {
    forall i, j :: 0 <= i < j < |s| ==> s[i] != s[j]
  }

  /** `[r for r in xs if r]`: keep the accepted values, in order. */
  function DropNone<T>(xs: seq<Option<T>>): (r: seq<T>)
    ensures |r| <= |xs|
    ensures forall x :: x in r ==> Some(x) in xs
  {
    if xs == [] then []
    else (if xs[0].Some? then [xs[0].value] else []) + DropNone(xs[1..])
  }

  /** The filter distributes over concatenation: it keeps the fetch order. */
  lemma {:induction false} DropNoneAppend<T>(a: seq<Option<T>>, b: seq<Option<T>>)
    ensures DropNone(a + b) == DropNone(a) + DropNone(b)
  {
    if a == [] {
      assert a + b == b;
    } else {
      assert (a + b)[0] == a[0];
      assert (a + b)[1..] == a[1..] + b;
      DropNoneAppend(a[1..], b);
    }
  }

  /** A value survives the filter exactly when it was accepted somewhere in the input. */
  lemma {:induction false} DropNoneMembers<T>(xs: seq<Option<T>>, x: T)
    ensures x in DropNone(xs) <==> Some(x) in xs
  {
    if xs != [] {
      DropNoneMembers(xs[1..], x);
      assert xs == [xs[0]] + xs[1..];
    }
  }

  /** Nothing is dropped exactly when every element was accepted. */
  lemma {:induction false} DropNoneKeepsAll<T>(xs: seq<Option<T>>)
    ensures |DropNone(xs)| == |xs| <==> forall i :: 0 <= i < |xs| ==> xs[i].Some?
  {
    if xs != [] {
      DropNoneKeepsAll(xs[1..]);
      if xs[0].Some? {
        assert forall i :: 1 <= i < |xs| ==> xs[i] == xs[1..][i - 1];
      }
    }
  }
}
