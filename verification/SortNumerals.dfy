/** Sorting numerals with the comparison that numcompare makes.  That is no order of all
    strings, but on lines that all have digits it is. */
module SortNumerals {
  import opened Concatenation
  import opened SortOrder
  import opened SortNumber
  import SortLines
  import SortPasses

  type NumeralLine = s: Text | Numeral(s) witness [ZERO]

  /** What numcompare tells of two lines with digits. */
  function ToldOf(a: NumeralLine, b: NumeralLine): int {
    Told(a, b)
  }

  lemma ToldIsTotal()
    ensures TotalPreorder(ToldOf)
  {
  }

  /** All have digits, or all have the same sign. */
  predicate Alike(lines: seq<Text>) {
    || (forall i :: 0 <= i < |lines| ==> Numeral(lines[i]))
    || (forall i, j :: 0 <= i < |lines| && 0 <= j < |lines| ==> Negative(lines[i]) == Negative(lines[j]))
  }

  /** numcompare tells the order of all pairs of lines exactly when all of them have
      digits or all have the same sign. */
  lemma ToldOnLines(lines: seq<Text>)
    ensures (forall i, j :: 0 <= i < |lines| && 0 <= j < |lines| ==> Told(lines[i], lines[j]) == NumberOrder(lines[i], lines[j]))
       <==> Alike(lines)
  {
    if !Alike(lines) {
      var n :| 0 <= n < |lines| && !Numeral(lines[n]);
      var i, j :| 0 <= i < |lines| && 0 <= j < |lines| && Negative(lines[i]) != Negative(lines[j]);
      var m := if Negative(lines[i]) != Negative(lines[n]) then i else j;
      ToldIsNumberOrder(lines[n], lines[m]);
    }
  }

  /** Lines in this order have ascending values. */
  lemma ByValue(s: seq<NumeralLine>)
    requires Sorted(s, ToldOf)
    ensures forall i, j :: 0 <= i < j < |s| ==> Value(s[i]) <= Value(s[j])
  {
    forall i, j | 0 <= i < j < |s| ensures Value(s[i]) <= Value(s[j]) {
      assert ToldOf(s[i], s[j]) <= 0;
    }
  }

  method SortInMemory(lines: array<NumeralLine>, temp: array<NumeralLine>)
    requires lines != temp && lines.Length <= temp.Length
    modifies lines, temp
    ensures StableSort(old(lines[..]), lines[..], ToldOf)
    ensures forall i, j :: 0 <= i < j < lines.Length ==> Value(lines[i]) <= Value(lines[j])
  {
    ToldIsTotal();
    assert lines[0..0 + lines.Length] == lines[..];
    SortLines.SortLines(lines, 0, lines.Length, temp, ToldOf);
    assert lines[0..0 + lines.Length] == lines[..];
    ByValue(lines[..]);
  }

  method MergeSorted(files: array<seq<NumeralLine>>) returns (out: seq<NumeralLine>)
    requires forall k :: 0 <= k < files.Length ==> Sorted(files[k], ToldOf)
    modifies files
    ensures StableSort(old(Concat(files[..])), out, ToldOf)
    ensures forall i, j :: 0 <= i < j < |out| ==> Value(out[i]) <= Value(out[j])
  {
    ToldIsTotal();
    assert files[..files.Length] == files[..];
    out := SortPasses.Merge(files, files.Length, ToldOf);
    ByValue(out);
  }
}
