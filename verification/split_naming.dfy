/** File names the splitter gives its downloads. The base name is the source
    file's name with the first occurrence of ".pdf" removed (wherever it
    stands), or "dokument" when that leaves nothing or there is no file. */
module SplitNaming {
  import opened Wrappers

  const Extension: string := ".pdf"
  const FallbackName: string := "dokument"

  /** `pattern` occurs in `s` starting at index `i`. */
  predicate OccursAt(s: string, pattern: string, i: int)
  {
    0 <= i && i + |pattern| <= |s| && s[i..i + |pattern|] == pattern
  }

  /** `s.replace(pattern, "")` with a string pattern: the first occurrence,
      and only that one, is removed. */
  function RemoveFirst(s: string, pattern: string): string
    decreases |s|
  {
    if |s| < |pattern| then s
    else if s[..|pattern|] == pattern then s[|pattern|..]
    else [s[0]] + RemoveFirst(s[1..], pattern)
  }

  lemma OccursAtShift(s: string, pattern: string, i: int)
    requires s != [] && i >= 1
    ensures OccursAt(s, pattern, i) <==> OccursAt(s[1..], pattern, i - 1)
  {
    if i + |pattern| <= |s| {
      var window, shifted := s[i..i + |pattern|], s[1..][i - 1..i - 1 + |pattern|];
      assert |window| == |shifted|;
      forall k | 0 <= k < |window| ensures window[k] == shifted[k] {
        assert window[k] == s[i + k];
        assert shifted[k] == s[1..][i - 1 + k];
      }
    }
  }

  /** Without an occurrence of the pattern the name is unchanged. */
  lemma {:induction false} RemoveFirstAbsent(s: string, pattern: string)
    requires forall i :: !OccursAt(s, pattern, i)
    ensures RemoveFirst(s, pattern) == s
    decreases |s|
  {
    if |s| >= |pattern| {
      assert !OccursAt(s, pattern, 0);
      forall i ensures !OccursAt(s[1..], pattern, i) {
        if i >= 0 {
          OccursAtShift(s, pattern, i + 1);
        }
      }
      RemoveFirstAbsent(s[1..], pattern);
      assert s == [s[0]] + s[1..];
    }
  }

  /** Exactly the first occurrence is cut out; everything around it stays. */
  lemma {:induction false} RemoveFirstPresent(s: string, pattern: string, i: nat)
    requires OccursAt(s, pattern, i)
    requires forall j :: 0 <= j < i ==> !OccursAt(s, pattern, j)
    ensures RemoveFirst(s, pattern) == s[..i] + s[i + |pattern|..]
    decreases |s|
  {
    if i > 0 {
      assert !OccursAt(s, pattern, 0);
      OccursAtShift(s, pattern, i);
      forall j | 0 <= j < i - 1 ensures !OccursAt(s[1..], pattern, j) {
        OccursAtShift(s, pattern, j + 1);
      }
      RemoveFirstPresent(s[1..], pattern, i - 1);
      assert s[..i] == [s[0]] + s[1..][..i - 1];
      assert s[i + |pattern|..] == s[1..][i - 1 + |pattern|..];
    }
  }

  /** The base name of every download of a split. */
  function BaseName(fileName: Option<string>): (r: string)
    ensures r != []
  {
    match fileName
    case None => FallbackName
    case Some(name) =>
      var stripped := RemoveFirst(name, Extension);
      if stripped == [] then FallbackName else stripped
  }

  /** For a name that is some stem followed by ".pdf", with no ".pdf" inside
      the stem, the base name is the stem (or "dokument" for an empty stem).
      This relies on ".pdf" having no proper prefix that is also a suffix, so
      no occurrence can straddle the stem's end. */
  lemma BaseNameOfPdfName(stem: string)
    requires forall i :: !OccursAt(stem, Extension, i)
    ensures BaseName(Some(stem + Extension)) == if stem == [] then FallbackName else stem
  {
    var name := stem + Extension;
    assert OccursAt(name, Extension, |stem|) by {
      assert name[|stem|..|stem| + 4] == Extension;
    }
    forall j | 0 <= j < |stem| ensures !OccursAt(name, Extension, j) {
      if j + 4 <= |stem| {
        assert name[j..j + 4] == stem[j..j + 4];
        assert !OccursAt(stem, Extension, j);
      } else {
        // the window starting at j has the extension's dot at offset k >= 1,
        // where ".pdf" has a letter
        var k := |stem| - j;
        assert name[j..j + 4][k] == name[|stem|] == '.';
        assert Extension[k] != '.';
      }
    }
    RemoveFirstPresent(name, Extension, |stem|);
    assert name[..|stem|] == stem && name[|stem| + 4..] == [];
  }

  /** The name ".pdf" inside a name is removed even when it is not the
      extension: "a.pdf.pdf" becomes "a.pdf". */
  lemma FirstOccurrenceOnly()
    ensures BaseName(Some("a.pdf.pdf")) == "a.pdf"
  {
    var name := "a.pdf.pdf";
    assert OccursAt(name, Extension, 1);
    assert name[0] == 'a' && !OccursAt(name, Extension, 0);
    RemoveFirstPresent(name, Extension, 1);
    assert name[..1] + name[5..] == "a.pdf";
  }

  /** The decimal numeral of `n`, as JavaScript prints a non-negative integer. */
  function Decimal(n: nat): (r: string)
    ensures |r| >= 1 && (n >= 10 <==> |r| >= 2)
  {
    if n < 10 then [('0' as int + n) as char]
    else Decimal(n / 10) + [('0' as int + n % 10) as char]
  }

  lemma {:induction false} DecimalInjective(a: nat, b: nat)
    requires Decimal(a) == Decimal(b)
    ensures a == b
  {
    if a >= 10 && b >= 10 {
      var da, db := Decimal(a), Decimal(b);
      assert da[|da| - 1] == db[|db| - 1];
      assert a % 10 == b % 10;
      assert da[..|da| - 1] == Decimal(a / 10);
      assert db[..|db| - 1] == Decimal(b / 10);
      DecimalInjective(a / 10, b / 10);
    } else if a < 10 && b < 10 {
      assert Decimal(a)[0] == Decimal(b)[0];
    }
  }

  /** `${base}.pdf`: the name of a split that yields one document. */
  function SingleName(base: string): string
  {
    base + Extension
  }

  /** `${base}_teil-${i + 1}.pdf`: the archive entry for segment `i`. */
  function PartName(base: string, i: nat): string
  {
    base + "_teil-" + Decimal(i + 1) + Extension
  }

  /** `${base}_geteilt.zip`: the archive of a split into several documents. */
  function ArchiveName(base: string): string
  {
    base + "_geteilt.zip"
  }

  /** Different segments get different entry names, so no archive entry
      overwrites another. */
  lemma PartNamesDistinct(base: string, i: nat, j: nat)
    requires i != j
    ensures PartName(base, i) != PartName(base, j)
  {
    if PartName(base, i) == PartName(base, j) {
      var prefix := base + "_teil-";
      var di, dj := Decimal(i + 1), Decimal(j + 1);
      assert |di| == |dj|;
      assert PartName(base, i)[|prefix|..|prefix| + |di|] == di;
      assert PartName(base, j)[|prefix|..|prefix| + |dj|] == dj;
      DecimalInjective(i + 1, j + 1);
    }
  }

  /** Every output name starts with the base name; the documents end in
      ".pdf" and the archive in ".zip"; and no archive entry is named like the
      single document. */
  lemma OutputNames(base: string, i: nat)
    ensures SingleName(base)[..|base|] == base && PartName(base, i)[..|base|] == base
    ensures ArchiveName(base)[..|base|] == base
    ensures var single := SingleName(base); single[|single| - 4..] == ".pdf"
    ensures var part := PartName(base, i); part[|part| - 4..] == ".pdf"
    ensures var archive := ArchiveName(base); archive[|archive| - 4..] == ".zip"
    ensures PartName(base, i) != SingleName(base)
  {
    assert |PartName(base, i)| > |SingleName(base)|;
  }
}
