/** The last-modified date of a restore request: the zero padding of a
    single-digit month and the reordering of `MMDDYYYY` into the `YYYYMMDD`
    form that backup object keys carry. The date is an opaque string here;
    its calendar validity is not part of this model. */
module Dates {

  /** Python's `s[:n]`: the first `n` characters, or all of `s` when shorter. */
  function Take(s: string, n: nat): (r: string)
    ensures |r| == if n <= |s| then n else |s|
    ensures r == s[..|r|]
  {
    if n <= |s| then s[..n] else s
  }

  /** Python's `s[n:]`: what follows the first `n` characters, or "" when `s`
      is shorter. */
  function Drop(s: string, n: nat): (r: string)
    ensures |r| == if n <= |s| then |s| - n else 0
    ensures r == s[|s| - |r|..]
  {
    if n <= |s| then s[n..] else []
  }

  /** A date of any length other than eight gets exactly one leading "0";
      an eight-character date is left alone. */
  function PadDate(d: string): (r: string)
    ensures |d| <= |r| <= |d| + 1
    ensures r[|r| - |d|..] == d
    ensures forall k | 0 <= k < |r| - |d| :: r[k] == '0'
    ensures |r| == |d| <==> |d| == 8
    ensures |r| == 8 <==> |d| == 7 || |d| == 8
  {
    if |d| != 8 then "0" + d else d
  }

  /** Padding is a no-op on its own output exactly when the input had seven
      or eight characters: any other length keeps growing. */
  lemma PadDateSettles(d: string)
    ensures PadDate(PadDate(d)) == PadDate(d) <==> |d| == 7 || |d| == 8
  {
  }

  /** The script's reordering `s[4:] + s[0:4]`: a rotation by four places,
      so the characters after the first four come first and those four
      follow. A string shorter than four is unchanged. */
  function AlterDate(s: string): (r: string)
    ensures |r| == |s|
    ensures |s| < 4 ==> r == s
    ensures |s| >= 4 ==> forall k | 0 <= k < |s| - 4 :: r[k] == s[k + 4]
    ensures |s| >= 4 ==> forall k | |s| - 4 <= k < |s| :: r[k] == s[k + 4 - |s|]
  {
    Drop(s, 4) + Take(s, 4)
  }

  /** The inverse rotation: the last four characters move back to the front. */
  function RestoreDate(r: string): (s: string)
    ensures |s| == |r|
    ensures |r| >= 4 ==> s[..4] == r[|r| - 4..] && s[4..] == r[..|r| - 4]
  {
    if |r| >= 4 then r[|r| - 4..] + r[..|r| - 4] else r
  }

  /** Reordering loses nothing: rotating the year back to the end recovers
      the date that was altered. */
  lemma {:induction false} RestoreAlteredDate(s: string)
    ensures RestoreDate(AlterDate(s)) == s
  {
    if |s| >= 4 {
      var r := AlterDate(s);
      assert r == s[4..] + s[..4];
      assert r[|r| - 4..] == s[..4];
      assert r[..|r| - 4] == s[4..];
    }
  }

  /** An eight-character `MMDDYYYY` date becomes `YYYYMMDD`. */
  lemma AlterDateIsYearMonthDay(s: string)
    requires |s| == 8
    ensures AlterDate(s) == s[4..8] + s[0..2] + s[2..4]
  {
  }

  /** A seven-character date with a single-digit month ends up in the
      eight-character `YYYYMMDD` order once padded: "7212021" -> "20210721".
      The script's own comment expects "21-07-2021", which is not what its
      slicing produces. */
  lemma SevenDigitDate()
    ensures PadDate("7212021") == "07212021"
    ensures AlterDate(PadDate("7212021")) == "20210721"
    ensures AlterDate(PadDate("7212021")) != "21-07-2021"
  {
    assert PadDate("7212021") == "07212021";
    assert AlterDate("07212021") == "2021" + "0721";
  }
}
