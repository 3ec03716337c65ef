/** What the parser needs of the operators' names: which is a suffix of which, and which letters they hold. */
module OperatorNames {
  import opened Options
  import opened Words
  import opened DerivedQuery
  import opened DerivedQueryParser

  /** Where an operator stands in the list by length, and how long its name is. */
  function Rank(op: Operator): nat {
    match op
    case GreaterThanEqual => 0 case LessThanEqual => 1 case StartingWith => 2 case GreaterThan => 3 case EndingWith => 4
    case Containing => 5 case IsNotNull => 6 case SimilarTo => 7 case LessThan => 8 case Between => 9 case Equals => 10
    case IsNull => 11 case NotIn => 12 case False => 13 case Like => 14 case True => 15 case Not => 16 case In => 17
  }

  function Length(op: Operator): nat {
    match op
    case GreaterThanEqual => 16 case LessThanEqual => 13 case StartingWith => 12 case GreaterThan => 11 case EndingWith => 10
    case Containing => 10 case IsNotNull => 9 case SimilarTo => 9 case LessThan => 8 case Between => 7 case Equals => 6
    case IsNull => 6 case NotIn => 5 case False => 5 case Like => 4 case True => 4 case Not => 3 case In => 2
  }

  lemma NameLength(op: Operator)
    ensures |OperatorName(op)| == Length(op)
  {
  }

  lemma RankInList(op: Operator)
    ensures Rank(op) < |ByLength()| && ByLength()[Rank(op)] == op
  {
  }

  lemma ListInRank(k: nat)
    requires k < |ByLength()|
    ensures Rank(ByLength()[k]) == k
  {
  }

  lemma LongerFirst(o: Operator, op: Operator)
    requires Rank(o) < Rank(op)
    ensures Length(o) >= Length(op)
  {
  }

  /** The last two letters. */
  function Tail(op: Operator): (char, char) {
    match op
    case GreaterThanEqual => ('a', 'l') case LessThanEqual => ('a', 'l') case StartingWith => ('t', 'h') case GreaterThan => ('a', 'n')
    case EndingWith => ('t', 'h') case Containing => ('n', 'g') case IsNotNull => ('l', 'l') case SimilarTo => ('T', 'o')
    case LessThan => ('a', 'n') case Between => ('e', 'n') case Equals => ('l', 's') case IsNull => ('l', 'l')
    case NotIn => ('I', 'n') case False => ('s', 'e') case Like => ('k', 'e') case True => ('u', 'e') case Not => ('o', 't')
    case In => ('I', 'n')
  }

  lemma NameTail(op: Operator)
    ensures var n := Length(op); |OperatorName(op)| == n && (OperatorName(op)[n - 2], OperatorName(op)[n - 1]) == Tail(op)
  {
  }

  lemma SuffixAt(s: string, w: string, k: nat)
    requires EndsWith(s, w) && k < |w|
    ensures s[|s| - |w| + k] == w[k]
  {
  }

  /** One operator's name ends with another's only where NotIn ends with In. */
  lemma OnlySuffix(o: Operator, op: Operator)
    requires EndsWith(OperatorName(o), OperatorName(op))
    ensures o == op || (o == NotIn && op == In)
  {
    hide OperatorName;
    NameTail(o);
    NameTail(op);
    SuffixAt(OperatorName(o), OperatorName(op), Length(op) - 2);
    SuffixAt(OperatorName(o), OperatorName(op), Length(op) - 1);
    SuffixAt(OperatorName(o), OperatorName(op), 0);
    SameTail(o, op);
  }

  /** Operators with the same last letters differ where the shorter name begins. */
  lemma SameTail(o: Operator, op: Operator)
    requires Tail(o) == Tail(op) && Length(o) >= Length(op) && |OperatorName(o)| == Length(o) && |OperatorName(op)| == Length(op)
    requires OperatorName(o)[Length(o) - Length(op)] == OperatorName(op)[0]
    ensures o == op || (o == NotIn && op == In)
  {
    assert o == op || (o, op) in {(GreaterThanEqual, LessThanEqual), (StartingWith, EndingWith), (GreaterThan, LessThan),
                                  (IsNotNull, IsNull), (NotIn, In)};
  }

  // ------------------------------------------------------------ letters

  /** Letters only, no capital A or O among them, and no By at the beginning. */
  predicate Letters(s: string) {
    && StartsUpper(s) && EndsLower(s) && |s| > 1 && !(s[0] == 'B' && s[1] == 'y')
    && forall i :: 0 <= i < |s| ==> (IsUpper(s[i]) || IsLower(s[i])) && s[i] != 'A' && s[i] != 'O'
  }

  lemma ShortLetters()
    ensures Letters("In") && Letters("Not") && Letters("Like") && Letters("True") && Letters("False") && Letters("NotIn")
  {
  }

  lemma MiddleLetters()
    ensures Letters("Equals") && Letters("IsNull") && Letters("Between") && Letters("LessThan")
  {
  }

  lemma LongerLetters()
    ensures Letters("SimilarTo") && Letters("IsNotNull") && Letters("Containing") && Letters("EndingWith")
  {
  }

  lemma LongestLetters()
    ensures Letters("GreaterThan") && Letters("StartingWith") && Letters("LessThanEqual") && Letters("GreaterThanEqual")
  {
  }

  lemma NameLetters(op: Operator)
    ensures Letters(OperatorName(op))
  {
    hide Letters;
    ShortLetters();
    MiddleLetters();
    LongerLetters();
    LongestLetters();
  }
}
