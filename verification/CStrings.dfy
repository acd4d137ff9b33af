/** C strings, modelled by the characters before the terminating NUL. */
module CStrings {

  datatype Option<+T> = None | Some(value: T)

  /** The character a C program reads at offset i; the terminator sits at offset |s|. */
  function At(s: string, i: nat): char
    requires i <= |s|
  {
    if i < |s| then s[i] else '\0'
  }

  /** The sign of strcmp. */
  function Compare(a: string, b: string): (r: int)
    ensures r == 0 || r == 1 || r == -1
    ensures r == 0 <==> a == b
  {
    if a == [] || b == [] then
      (if a == b then 0 else if a == [] then -1 else 1)
    else if a[0] != b[0] then
      (if a[0] > b[0] then 1 else -1)
    else
      assert a == [a[0]] + a[1..] && b == [b[0]] + b[1..];
      Compare(a[1..], b[1..])
  }

  /** a is less exactly if it is a proper prefix, or smaller where the two first differ. */
  lemma {:induction false} CompareIsLexicographic(a: string, b: string)
    ensures Compare(a, b) < 0 <==>
      exists k :: 0 <= k <= |a| && k < |b| && a[..k] == b[..k] && (k == |a| || a[k] < b[k])
  {
    if a == [] {
      assert b != [] ==> a[..0] == b[..0];
    } else if b != [] {
      if a[0] == b[0] {
        CompareIsLexicographic(a[1..], b[1..]);
        if Compare(a, b) < 0 {
          var k :| 0 <= k <= |a| - 1 && k < |b| - 1 && a[1..][..k] == b[1..][..k] && (k == |a| - 1 || a[1..][k] < b[1..][k]);
          assert a[..k + 1] == [a[0]] + a[1..][..k] == b[..k + 1];
        }
        if k :| 0 <= k <= |a| && k < |b| && a[..k] == b[..k] && (k == |a| || a[k] < b[k]) {
          assert a[1..][..k - 1] == a[..k][1..] == b[..k][1..] == b[1..][..k - 1];
        }
      } else {
        forall k | 1 <= k <= |a| && k < |b|
          ensures a[..k] != b[..k]
        {
          assert a[..k][0] != b[..k][0];
        }
        assert a[..0] == b[..0];
      }
    }
  }

  lemma {:induction false} CompareAntisymmetric(a: string, b: string)
    ensures Compare(a, b) == -Compare(b, a)
  {
    if a != [] && b != [] && a[0] == b[0] {
      CompareAntisymmetric(a[1..], b[1..]);
    }
  }

  lemma {:induction false} CompareTransitive(a: string, b: string, c: string)
    requires Compare(a, b) <= 0 && Compare(b, c) <= 0
    ensures Compare(a, c) <= 0
    ensures Compare(a, b) < 0 || Compare(b, c) < 0 ==> Compare(a, c) < 0
  {
    if a != [] && b != [] && c != [] && a[0] == b[0] == c[0] {
      CompareTransitive(a[1..], b[1..], c[1..]);
    }
  }

  function Sign(n: int): int {
    if n > 0 then 1 else if n < 0 then -1 else 0
  }
}
