/** Spelling types and properties shared by the algebra, the prism and the syllabifier. */
module Spellings {

  datatype Option<+T> = None | Some(value: T)

  /** The spelling types, from most to least favoured. */
  type SpellingType = t: int | 0 <= t <= 4 witness 0
  const NORMAL: SpellingType := 0
  const ABBREVIATION: SpellingType := 1
  const COMPLETION: SpellingType := 2
  const AMBIGUOUS: SpellingType := 3
  const INVALID: SpellingType := 4

  function Worse(a: SpellingType, b: SpellingType): (t: SpellingType)
    ensures a <= t && b <= t && (t == a || t == b)
  {
    if a < b then b else a
  }

  function Better(a: SpellingType, b: SpellingType): (t: SpellingType)
    ensures t <= a && t <= b && (t == a || t == b)
  {
    if b < a then b else a
  }

  datatype Properties = Properties(kind: SpellingType, endPos: nat, credibility: real)

  /** Any one of the elements that are left. */
  method Pick<T(==)>(todo: set<T>) returns (x: T)
    requires todo != {}
    ensures x in todo
  {
    x :| x in todo;
  }
}
