/**
 * The handful of Python str operations the tool applies to ASCII text:
 * `in`, `split`, `join`, `lower` and the decimal rendering of a counter.
 * Text is a byte string, as it is stored in the TIFF ImageDescription field.
 */
module Text {
  import opened Wrappers
  import opened CompressionUtils

  /** pat occurs in s at position i. */
  predicate OccursAt(s: seq<byte>, pat: seq<byte>, i: int)
  {
    0 <= i && i + |pat| <= |s| && s[i .. i + |pat|] == pat
  }

  /** The first position at or after `from` where pat occurs. */
  function FindFrom(s: seq<byte>, pat: seq<byte>, from: nat): (r: Option<nat>)
    ensures r.Some? ==> from <= r.value && OccursAt(s, pat, r.value)
    ensures r.Some? ==> forall j :: from <= j < r.value ==> !OccursAt(s, pat, j)
    ensures r.None? ==> forall j :: from <= j ==> !OccursAt(s, pat, j)
    decreases |s| - from
  {
    if from + |pat| > |s| then None
    else if s[from .. from + |pat|] == pat then Some(from)
    else FindFrom(s, pat, from + 1)
  }

  /** str.find: the first occurrence of pat in s. */
  function Find(s: seq<byte>, pat: seq<byte>): Option<nat>
  {
    FindFrom(s, pat, 0)
  }

  /** Python's `pat in s`. */
  predicate Contains(s: seq<byte>, pat: seq<byte>)
  {
    Find(s, pat).Some?
  }

  lemma ContainsIff(s: seq<byte>, pat: seq<byte>)
    ensures Contains(s, pat) <==> exists i :: OccursAt(s, pat, i)
  {
    if Find(s, pat).Some? {
      assert OccursAt(s, pat, Find(s, pat).value);
    }
  }

  /** s.split(sep): the pieces between the non-overlapping occurrences of sep, left to right. */
  function Split(s: seq<byte>, sep: seq<byte>): (r: seq<seq<byte>>)
    requires |sep| > 0
    ensures |r| >= 1
    decreases |s|
  {
    match Find(s, sep)
    case None => [s]
    case Some(i) => [s[..i]] + Split(s[i + |sep|..], sep)
  }

  /** sep.join(parts) */
  function Join(parts: seq<seq<byte>>, sep: seq<byte>): seq<byte>
  {
    if parts == [] then []
    else if |parts| == 1 then parts[0]
    else parts[0] + sep + Join(parts[1..], sep)
  }

  lemma Split3(s: seq<byte>, i: nat, j: nat)
    requires i <= j <= |s|
    ensures s == s[..i] + s[i..j] + s[j..]
  {
  }

  /** One step of split: the text up to the first separator, then the split of the rest. */
  lemma SplitStep(s: seq<byte>, sep: seq<byte>)
    requires |sep| > 0 && Find(s, sep).Some?
    ensures var i := Find(s, sep).value;
      && i + |sep| <= |s|
      && Split(s, sep) == [s[..i]] + Split(s[i + |sep|..], sep)
      && s == s[..i] + sep + s[i + |sep|..]
  {
    var i := Find(s, sep).value;
    Split3(s, i, i + |sep|);
  }

  lemma JoinCons(a: seq<byte>, ps: seq<seq<byte>>, sep: seq<byte>)
    requires |ps| >= 1
    ensures Join([a] + ps, sep) == a + sep + Join(ps, sep)
  {
    assert ([a] + ps)[1..] == ps;
  }

  /** Joining one more piece appends the separator and the piece. */
  lemma {:induction false} JoinSnoc(ps: seq<seq<byte>>, x: seq<byte>, sep: seq<byte>)
    requires |ps| >= 1
    ensures Join(ps + [x], sep) == Join(ps, sep) + sep + x
    decreases |ps|
  {
    if |ps| > 1 {
      assert (ps + [x])[1..] == ps[1..] + [x];
      JoinSnoc(ps[1..], x, sep);
    }
  }

  /** Joining the pieces of a split with the same separator gives back the text. */
  lemma {:induction false} JoinSplit(s: seq<byte>, sep: seq<byte>)
    requires |sep| > 0
    ensures Join(Split(s, sep), sep) == s
    decreases |s|
  {
    if Find(s, sep).Some? {
      var i := Find(s, sep).value;
      var rest := s[i + |sep|..];
      SplitStep(s, sep);
      JoinSplit(rest, sep);
      JoinCons(s[..i], Split(rest, sep), sep);
    }
  }

  /** No piece of a split contains the separator. */
  lemma {:induction false} SplitPiecesAvoidSeparator(s: seq<byte>, sep: seq<byte>)
    requires |sep| > 0
    ensures forall k :: 0 <= k < |Split(s, sep)| ==> !Contains(Split(s, sep)[k], sep)
    decreases |s|
  {
    match Find(s, sep)
    case None =>
    case Some(i) =>
      var rest := s[i + |sep|..];
      SplitPiecesAvoidSeparator(rest, sep);
      var head := s[..i];
      if Contains(head, sep) {
        var j := Find(head, sep).value;
        assert head[j .. j + |sep|] == s[j .. j + |sep|];
        assert OccursAt(s, sep, j);
      }
      assert Split(s, sep) == [head] + Split(rest, sep);
  }

  lemma ByteAbsent(p: seq<byte>, c: byte)
    requires !Contains(p, [c])
    ensures forall j :: 0 <= j < |p| ==> p[j] != c
  {
    forall j | 0 <= j < |p|
      ensures p[j] != c
    {
      ContainsIff(p, [c]);
      assert !OccursAt(p, [c], j);
      assert p[j .. j + 1] == [p[j]];
    }
  }

  lemma ByteFree(p: seq<byte>, c: byte)
    requires forall j :: 0 <= j < |p| ==> p[j] != c
    ensures !Contains(p, [c])
  {
    forall i: int
      ensures !OccursAt(p, [c], i)
    {
      if 0 <= i < |p| {
        assert p[i .. i + 1] == [p[i]];
      }
    }
    ContainsIff(p, [c]);
  }

  /**
   * Splitting a join of pieces that do not contain a one-byte separator
   * gives the pieces back.
   */
  lemma {:induction false} SplitJoin(parts: seq<seq<byte>>, c: byte)
    requires |parts| >= 1
    requires forall k :: 0 <= k < |parts| ==> !Contains(parts[k], [c])
    ensures Split(Join(parts, [c]), [c]) == parts
  {
    var s := Join(parts, [c]);
    var p := parts[0];
    ByteAbsent(p, c);
    if |parts| == 1 {
      assert forall j :: 0 <= j ==> !OccursAt(s, [c], j);
    } else {
      var rest := Join(parts[1..], [c]);
      assert s == p + [c] + rest;
      assert OccursAt(s, [c], |p|);
      assert forall j :: 0 <= j < |p| ==> !OccursAt(s, [c], j);
      assert Find(s, [c]) == Some(|p|);
      assert s[|p| + 1..] == rest;
      assert s[..|p|] == p;
      assert Split(s, [c]) == [p] + Split(rest, [c]);
      assert forall k :: 0 <= k < |parts[1..]| ==> !Contains(parts[1..][k], [c]) by {
        forall k | 0 <= k < |parts[1..]|
          ensures !Contains(parts[1..][k], [c])
        {
          assert parts[1..][k] == parts[k + 1];
        }
      }
      SplitJoin(parts[1..], c);
      assert parts == [p] + parts[1..];
    }
  }

  /** str.lower() on ASCII: 'A'..'Z' become 'a'..'z', every other byte stays. */
  function LowerAscii(s: seq<byte>): (r: seq<byte>)
    ensures |r| == |s|
    ensures forall i :: 0 <= i < |s| ==> r[i] == if 65 <= s[i] <= 90 then s[i] + 32 else s[i]
  {
    if s == [] then [] else LowerAscii(s[..|s| - 1]) + [if 65 <= s[|s| - 1] <= 90 then s[|s| - 1] + 32 else s[|s| - 1]]
  }

  /** The ASCII digit of d. */
  function Digit(d: nat): byte
    requires d < 10
  {
    48 + d
  }

  /** str(n) for n >= 0: decimal digits, no leading zero. */
  function Decimal(n: nat): (r: seq<byte>)
    ensures |r| >= 1
    ensures forall i :: 0 <= i < |r| ==> 48 <= r[i] <= 57
    decreases n
  {
    if n < 10 then [Digit(n)] else Decimal(n / 10) + [Digit(n % 10)]
  }

  /** int(s) on a string of decimal digits. */
  function ParseDecimal(s: seq<byte>): nat
    requires forall i :: 0 <= i < |s| ==> 48 <= s[i] <= 57
  {
    if s == [] then 0 else 10 * ParseDecimal(s[..|s| - 1]) + (s[|s| - 1] - 48)
  }

  /** int(str(n)) == n, so distinct counters render as distinct text. */
  lemma {:induction false} DecimalRoundTrip(n: nat)
    ensures ParseDecimal(Decimal(n)) == n
    decreases n
  {
    if n >= 10 {
      DecimalRoundTrip(n / 10);
      var d := Decimal(n);
      assert d[..|d| - 1] == Decimal(n / 10);
    }
  }

  lemma DecimalInjective(a: nat, b: nat)
    requires Decimal(a) == Decimal(b)
    ensures a == b
  {
    DecimalRoundTrip(a);
    DecimalRoundTrip(b);
  }
}
