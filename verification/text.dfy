/** Splitting text at a separator and joining fields with one, as JavaScript's
    `String.prototype.split` with a one-character separator and
    `Array.prototype.join` (and `toString` followed by `replaceAll(',', sep)`,
    which the source uses in place of `join`). */
module Text {

  /** `s.split(sep)`: the maximal sep-free pieces of s; an empty string gives one empty field. */
  function Split(s: string, sep: char): (r: seq<string>)
    ensures |r| >= 1
    ensures forall k | 0 <= k < |r| :: sep !in r[k]
  {
    if |s| == 0 then [""]
    else
      var rest := Split(s[1..], sep);
      if s[0] == sep then [""] + rest
      else [[s[0]] + rest[0]] + rest[1..]
  }

  /** `parts.join(sep)`. */
  function Join(parts: seq<string>, sep: char): string
  {
    if |parts| == 0 then ""
    else if |parts| == 1 then parts[0]
    else parts[0] + [sep] + Join(parts[1..], sep)
  }

  /** No field contains the separator. */
  predicate SepFree(parts: seq<string>, sep: char)
  {
    forall k | 0 <= k < |parts| :: sep !in parts[k]
  }

  /** A separator-free prefix followed by the separator ends the first field. */
  lemma {:induction false} SplitAfterField(a: string, sep: char, b: string)
    requires sep !in a
    ensures Split(a + [sep] + b, sep) == [a] + Split(b, sep)
  {
    if |a| == 0 {
      assert a + [sep] + b == [sep] + b;
      assert ([sep] + b)[1..] == b;
    } else {
      SplitAfterField(a[1..], sep, b);
      assert (a + [sep] + b)[1..] == a[1..] + [sep] + b;
      assert [a[0]] + a[1..] == a;
    }
  }

  /** Text without the separator is a single field. */
  lemma {:induction false} SplitSingle(a: string, sep: char)
    requires sep !in a
    ensures Split(a, sep) == [a]
  {
    if |a| > 0 {
      SplitSingle(a[1..], sep);
      assert [a[0]] + a[1..] == a;
    }
  }

  /** Splitting undoes joining when no field holds the separator. */
  lemma {:induction false} SplitJoin(parts: seq<string>, sep: char)
    requires |parts| >= 1 && SepFree(parts, sep)
    ensures Split(Join(parts, sep), sep) == parts
  {
    if |parts| == 1 {
      SplitSingle(parts[0], sep);
    } else {
      SplitJoin(parts[1..], sep);
      SplitAfterField(parts[0], sep, Join(parts[1..], sep));
      assert [parts[0]] + parts[1..] == parts;
    }
  }

  /** Joining two non-empty lists puts one separator between their joins. */
  lemma {:induction false} JoinAppend(a: seq<string>, b: seq<string>, sep: char)
    requires |a| >= 1 && |b| >= 1
    ensures Join(a + b, sep) == Join(a, sep) + [sep] + Join(b, sep)
  {
    if |a| == 1 {
      assert (a + b)[1..] == b;
    } else {
      JoinAppend(a[1..], b, sep);
      assert (a + b)[1..] == a[1..] + b;
    }
  }

  /** With separator-free fields, the separator occurs in the join exactly when there are two fields or more. */
  lemma {:induction false} JoinSepFree(parts: seq<string>, sep: char)
    requires SepFree(parts, sep)
    ensures sep in Join(parts, sep) <==> |parts| >= 2
  {
    if |parts| >= 2 {
      JoinSepFree(parts[1..], sep);
      assert Join(parts, sep)[|parts[0]|] == sep;
    }
  }

  /** The separator never occurs twice in a row in t. */
  predicate NoDoubleSep(t: string, sep: char)
  {
    forall k | 0 <= k < |t| - 1 :: !(t[k] == sep && t[k + 1] == sep)
  }

  /** Non-empty, separator-free fields join without two separators in a row. */
  lemma {:induction false} JoinNoDoubleSep(parts: seq<string>, sep: char)
    requires SepFree(parts, sep) && forall k | 0 <= k < |parts| :: |parts[k]| >= 1
    ensures NoDoubleSep(Join(parts, sep), sep)
    decreases |parts|
  {
    if |parts| >= 2 {
      var p, rest := parts[0], parts[1..];
      assert SepFree(rest, sep) by {
        forall k | 0 <= k < |rest| ensures sep !in rest[k] { assert rest[k] == parts[k + 1]; }
      }
      assert forall k | 0 <= k < |rest| :: |rest[k]| >= 1 by {
        forall k | 0 <= k < |rest| ensures |rest[k]| >= 1 { assert rest[k] == parts[k + 1]; }
      }
      JoinNoDoubleSep(rest, sep);
      var j := Join(rest, sep);
      var t := Join(parts, sep);
      assert t == p + [sep] + j;
      assert sep !in p;
      assert j[0] == rest[0][0] && sep !in rest[0];
      forall k | 0 <= k < |t| - 1 ensures !(t[k] == sep && t[k + 1] == sep) {
        if k < |p| {
          assert t[k] == p[k];
        } else if k == |p| {
          assert t[k + 1] == j[0];
        } else {
          assert t[k] == j[k - |p| - 1] && t[k + 1] == j[k - |p|];
        }
      }
    }
  }

  /** Joined separator-free fields, a separator, then more text: the fields
      come out first. */
  lemma {:induction false} SplitJoinThen(parts: seq<string>, sep: char, rest: string)
    requires |parts| >= 1 && SepFree(parts, sep)
    ensures Split(Join(parts, sep) + [sep] + rest, sep) == parts + Split(rest, sep)
  {
    var p0, ps, y := parts[0], parts[1..], Split(rest, sep);
    assert parts == [p0] + ps;
    if |parts| == 1 {
      SplitAfterField(p0, sep, rest);
      assert ps == [];
      assert [p0] + y == parts + y;
    } else {
      var x := Join(ps, sep) + [sep] + rest;
      SplitJoinThen(ps, sep, rest);
      assert Join(parts, sep) + [sep] + rest == p0 + [sep] + x;
      SplitAfterField(p0, sep, x);
      AppendAssoc(p0, ps, y);
      assert Split(Join(parts, sep) + [sep] + rest, sep) == [p0] + (ps + y);
    }
  }

  /** Regrouping a concatenation that starts with one element. */
  lemma {:induction false} AppendAssoc<T>(a: T, b: seq<T>, c: seq<T>)
    ensures [a] + (b + c) == ([a] + b) + c
  {
  }
}
