/** File and folder names the converter derives: the output video name that
    does not overwrite an existing file, and the shortened folder label. */
module Naming {
  import Decimal

  /** Candidate `counter` for a PDF whose file stem is `stem`: counter 0 is
      `<stem>_slideshow.mp4`, counter `c > 0` is `<stem>_slideshow_<c>.mp4`. */
  function OutputName(stem: string, counter: nat): (name: string)
    ensures |name| >= |stem| + 14 && name[..|stem| + 10] == stem + "_slideshow" && name[|name| - 4..] == ".mp4"
    ensures counter == 0 <==> |name| == |stem| + 14
  {
    if counter == 0 then stem + "_slideshow.mp4"
    else stem + "_slideshow_" + Decimal.Digits(counter) + ".mp4"
  }

  /** A numbered candidate carries `_` and then the decimal numeral of its
      counter before `.mp4`: reading that numeral back gives the counter. */
  lemma OutputNameSuffix(stem: string, counter: nat)
    requires counter > 0
    ensures var name := OutputName(stem, counter);
      name[|stem| + 10] == '_' && Decimal.AllDigits(name[|stem| + 11..|name| - 4]) &&
      Decimal.Parse(name[|stem| + 11..|name| - 4]) == counter
  {
    var name := OutputName(stem, counter);
    assert name[|stem| + 11..|name| - 4] == Decimal.Digits(counter);
    Decimal.ParseDigits(counter);
  }

  /** Different counters never give the same name. */
  lemma OutputNameInjective(stem: string, a: nat, b: nat)
    requires OutputName(stem, a) == OutputName(stem, b)
    ensures a == b
  {
    var na := OutputName(stem, a);
    var nb := OutputName(stem, b);
    if a != 0 && b != 0 {
      var from := |stem| + 11;
      assert na[from..|na| - 4] == Decimal.Digits(a);
      assert nb[from..|nb| - 4] == Decimal.Digits(b);
      Decimal.DigitsInjective(a, b);
    }
  }

  lemma OutputNamesDistinct(stem: string, a: nat, b: nat)
    requires a != b
    ensures OutputName(stem, a) != OutputName(stem, b)
  {
    if OutputName(stem, a) == OutputName(stem, b) {
      OutputNameInjective(stem, a, b);
    }
  }

  /** The output-name loop: try the plain name, then counters 1, 2, ... and
      stop at the first candidate not among the `existing` names. Returns
      the name and the counter it carries (0 for the plain name). */
  method ChooseOutputName(stem: string, existing: set<string>) returns (name: string, suffix: nat)
    ensures name == OutputName(stem, suffix) && name !in existing
    ensures forall c :: 0 <= c < suffix ==> OutputName(stem, c) in existing
  {
    name := OutputName(stem, 0);
    var counter := 1;
    while name in existing
      invariant counter >= 1 && name == OutputName(stem, counter - 1)
      invariant forall c :: 0 <= c < counter - 1 ==> OutputName(stem, c) in existing
      invariant counter - 1 <= |existing|
      decreases |existing| - (counter - 1)
    {
      assert counter <= |existing| by {
        assert Candidates(stem, counter) <= existing;
        CandidatesCount(stem, counter);
        SubsetCardinality(Candidates(stem, counter), existing);
      }
      name := OutputName(stem, counter);
      counter := counter + 1;
    }
    suffix := counter - 1;
  }

  /** The first `n` candidates. */
  ghost function Candidates(stem: string, n: nat): set<string> {
    set c | 0 <= c < n :: OutputName(stem, c)
  }

  /** The first `n` candidates are `n` distinct names. */
  lemma CandidatesCount(stem: string, n: nat)
    ensures |Candidates(stem, n)| == n
  {
    var f := (c: nat) => OutputName(stem, c);
    forall a: nat, b: nat | a < b < n
      ensures f(a) != f(b)
    {
      OutputNamesDistinct(stem, a, b);
    }
    ImageSize(f, n);
    var image := set c: nat | c < n :: f(c);
    forall x | x in Candidates(stem, n)
      ensures x in image
    {
      var c: nat :| c < n && x == OutputName(stem, c);
      assert f(c) == x;
    }
    forall x | x in image
      ensures x in Candidates(stem, n)
    {
      var c: nat :| c < n && x == f(c);
      assert x == OutputName(stem, c);
    }
    assert Candidates(stem, n) == image;
  }

  /** A function that is injective on `0 .. n-1` has `n` distinct values there. */
  lemma {:induction false} ImageSize<T>(f: nat -> T, n: nat)
    requires forall a: nat, b: nat :: a < b < n ==> f(a) != f(b)
    ensures |set c: nat | c < n :: f(c)| == n
  {
    if n > 0 {
      ImageSize(f, n - 1);
      assert (set c: nat | c < n :: f(c)) == (set c: nat | c < n - 1 :: f(c)) + {f(n - 1)};
    }
  }

  lemma SubsetCardinality<T>(a: set<T>, b: set<T>)
    requires a <= b
    ensures |a| <= |b|
  {
    assert b == a + (b - a);
  }

  /** The output-folder label: names longer than 20 characters are cut to
      their first 17 characters followed by "...". */
  function FolderLabel(folderName: string): (shown: string)
    ensures |shown| <= 20
    ensures |folderName| <= 20 ==> shown == folderName
    ensures |folderName| > 20 ==>
      |shown| == 20 && shown[..17] == folderName[..17] && shown[17..] == "..."
  {
    if |folderName| > 20 then folderName[..17] + "..." else folderName
  }
}
