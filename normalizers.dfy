/**
  The three text normalizers of the cleaner that are single expressions:
  `clean_name`, `clean_email` and `clean_age`. Each is total: any text is
  a valid input and a malformed value degrades to a cleaned or empty value
  instead of failing.
 */
module Normalizers {
  import opened Text

  /** `word.capitalize() for word in ws`: one capitalized word per word,
      in order. */
  function Caps(ws: seq<string>): (r: seq<string>)
    ensures |r| == |ws|
  {
    seq(|ws|, i requires 0 <= i < |ws| => Capitalize(ws[i]))
  }

  /** The generator keeps the words in order and capitalizes each one. */
  lemma CapsEach(ws: seq<string>)
    ensures forall i :: 0 <= i < |ws| ==> Caps(ws)[i] == Capitalize(ws[i])
    ensures forall i :: 0 <= i < |ws| ==> Lower(Caps(ws)[i]) == Lower(ws[i])
  {
    forall i | 0 <= i < |ws| ensures Lower(Caps(ws)[i]) == Lower(ws[i]) {
      CapitalizeLetters(ws[i]);
    }
  }

  /** clean_name: trim, split on whitespace runs, capitalize every word and
      join the words with single spaces. */
  function CleanName(name: string): (r: string)
    ensures SingleSpaced(r)
    ensures Split(r) == Caps(Split(Strip(name)))
  {
    var ws := Split(Strip(name));
    SplitWords(Strip(name));
    CapsWords(ws);
    JoinSingleSpaced(Caps(ws));
    SplitJoin(Caps(ws));
    JoinSpace(Caps(ws))
  }

  lemma CapsWords(ws: seq<string>)
    requires forall i :: 0 <= i < |ws| ==> IsWord(ws[i])
    ensures forall i :: 0 <= i < |ws| ==> IsWord(Caps(ws)[i]) && Capitalized(Caps(ws)[i])
    ensures Caps(Caps(ws)) == Caps(ws)
  {
    forall i | 0 <= i < |ws|
      ensures IsWord(Caps(ws)[i]) && Capitalized(Caps(ws)[i])
      ensures Caps(Caps(ws))[i] == Caps(ws)[i]
    {
      CapitalizeProperties(ws[i]);
    }
  }

  /** The cleaned name is single-spaced (no whitespace at the ends, no
      doubled or non-space separators), its words are exactly the words of
      the trimmed input, capitalized, and it is empty exactly when the input
      is empty or all whitespace. */
  lemma CleanNameProperties(name: string)
    ensures SingleSpaced(CleanName(name))
    ensures NoEdgeSpace(CleanName(name))
    ensures Split(CleanName(name)) == Caps(Split(Strip(name)))
    ensures forall i :: 0 <= i < |Split(CleanName(name))| ==> Capitalized(Split(CleanName(name))[i])
    ensures CleanName(name) == [] <==> AllSpace(name)
  {
    var ws := Split(Strip(name));
    SplitWords(Strip(name));
    CapsWords(ws);
    JoinSingleSpaced(Caps(ws));
    SingleSpacedNoEdge(CleanName(name));
    SplitJoin(Caps(ws));
    StripProperties(name);
    SplitEmpty(Strip(name));
    if ws != [] {
      JoinEnds(Caps(ws));
    }
    if AllSpace(name) {
      assert Strip(name) == [];
    } else if Strip(name) == [] {
      assert false;
    }
  }

  /** Cleaning a cleaned name changes nothing. */
  lemma CleanNameIdempotent(name: string)
    ensures CleanName(CleanName(name)) == CleanName(name)
  {
    var r := CleanName(name);
    CleanNameProperties(name);
    StripTrimmed(r);
    SplitWords(Strip(name));
    CapsWords(Split(Strip(name)));
  }

  /** clean_email: trim and lowercase. The result has no upper-case letter
      and no whitespace at either end, and it keeps the trimmed address
      character for character up to case. */
  function CleanEmail(email: string): (r: string)
    ensures HasNoUpper(r)
    ensures NoEdgeSpace(r)
    ensures |r| == |Strip(email)| && Lower(r) == Lower(Strip(email))
  {
    StripProperties(email);
    LowerProperties(Strip(email));
    Lower(Strip(email))
  }

  /** Cleaning a cleaned address changes nothing. */
  lemma CleanEmailIdempotent(email: string)
    ensures CleanEmail(CleanEmail(email)) == CleanEmail(email)
  {
    var r := CleanEmail(email);
    StripTrimmed(r);
    LowerProperties(Strip(email));
  }

  /** clean_age: the trimmed text when it is a non-empty run of decimal
      digits, otherwise the empty string. */
  function CleanAge(age: string): (r: string)
    ensures r == [] || r == Strip(age)
    ensures r != [] <==> IsDigits(Strip(age))
    ensures r == [] || IsDigits(r)
  {
    var t := Strip(age);
    if IsDigits(t) then t else ""
  }

  /** Cleaning a cleaned age changes nothing. */
  lemma CleanAgeIdempotent(age: string)
    ensures CleanAge(CleanAge(age)) == CleanAge(age)
  {
    StripIdempotent(age);
  }
}
