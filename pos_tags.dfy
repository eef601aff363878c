/** Part-of-speech tests used by the annotator and the candidate generator.
    Each predicate is one Java `String.matches` call, i.e. a match of the
    WHOLE tag against the pattern named in its comment. In these patterns
    `.` matches any character except a line terminator. */
module PosTags {

  /** The characters Java's `.` does not match by default. */
  predicate IsLineTerminator(c: char)
  {
    c == '\n' || c == '\r' || c == '\U{0085}' || c == '\U{2028}' || c == '\U{2029}'
  }

  /** `s` matches `(.)*`. */
  predicate AnyChars(s: string)
  {
    forall i :: 0 <= i < |s| ==> !IsLineTerminator(s[i])
  }

  /** `tag` matches `<prefix>(.)*`. */
  predicate HasPrefix(tag: string, prefix: string)
  {
    prefix <= tag && AnyChars(tag[|prefix|..])
  }

  /** `VB(.)*` */
  predicate IsVerb(tag: string) { HasPrefix(tag, "VB") }

  /** `NN(.)*` */
  predicate IsNoun(tag: string) { HasPrefix(tag, "NN") }

  /** `NN(.)*|WRB` */
  predicate IsNounOrWrb(tag: string) { IsNoun(tag) || tag == "WRB" }

  /** `WRB|WP` */
  predicate IsWhWord(tag: string) { tag == "WRB" || tag == "WP" }

  /** `CombinedNN|NNP(.)*|JJ|CD`: tags whose label is searched as free text. */
  predicate IsFreeText(tag: string)
  {
    tag == "CombinedNN" || HasPrefix(tag, "NNP") || tag == "JJ" || tag == "CD"
  }

  /** `NN|NNS` */
  predicate IsCommonNoun(tag: string) { tag == "NN" || tag == "NNS" }

  /** A proper-noun tag is also a noun tag, so the order in which the
      generator tests `CombinedNN|NNP(.)*|JJ|CD` before `NN|NNS` matters only
      for the tags named here, and the two tests never both hold. */
  lemma FreeTextExcludesCommonNoun(tag: string)
    ensures IsFreeText(tag) ==> !IsCommonNoun(tag)
    ensures HasPrefix(tag, "NNP") ==> IsNoun(tag)
  {
    if HasPrefix(tag, "NNP") {
      assert tag[..2] == "NN";
      assert tag[2..] == tag[2..3] + tag[3..];
      assert tag[2] == 'P';
    }
  }

  /** The question-word tags are neither noun nor verb tags. */
  lemma WhWordIsNoNoun(tag: string)
    ensures IsWhWord(tag) ==> !IsNoun(tag) && !IsVerb(tag)
  {
    if IsWhWord(tag) {
      assert tag[0] == 'W';
    }
  }
}
