// Threading header values as they are written by hand or by other programs: the
// grammar of sections 3.2, 3.6.4 and 4.5.4 of RFC 5322 as syntax trees over
// characters that are listed one by one, with the text each tree stands for and
// the identifiers in it.
module IdPrinting {
  import opened EncodedWordSyntax

  // ---- Characters

  predicate IsLetterOrDigit(c: char) {
    'a' <= c <= 'z' || 'A' <= c <= 'Z' || '0' <= c <= '9'
  }

  /** What an atom is made of. */
  predicate IsIdChar(c: char) {
    IsLetterOrDigit(c) || c in "!#$%&'*+-/=?^_`{|}~"
  }

  predicate IsBlank(c: char) {
    c == ' ' || c == '\t'
  }

  predicate IsVisible(c: char) {
    '!' <= c <= '~'
  }

  predicate IsForeign(c: char) {
    '\U{A0}' <= c
  }

  predicate IsRun(s: string) {
    s != "" && forall k | 0 <= k < |s| :: IsIdChar(s[k])
  }

  // ---- Comments and gaps

  /** What stands in a comment. */
  datatype Comment = End | Plain(c: char, rest: Comment) | Escaped(c: char, rest: Comment)
                   | Nested(inner: Comment, rest: Comment)

  predicate IsComment(comment: Comment) {
    match comment
    case End => true
    case Plain(c, rest) =>
      (IsBlank(c) || IsVisible(c) || IsForeign(c)) && c != '(' && c != ')' && c != '\\' && IsComment(rest)
    case Escaped(c, rest) => (IsBlank(c) || IsVisible(c) || IsForeign(c)) && IsComment(rest)
    case Nested(inner, rest) => IsComment(inner) && IsComment(rest)
  }

  function CommentText(comment: Comment): string {
    match comment
    case End => ""
    case Plain(c, rest) => [c] + CommentText(rest)
    case Escaped(c, rest) => ['\\', c] + CommentText(rest)
    case Nested(inner, rest) => "(" + (CommentText(inner) + (")" + CommentText(rest)))
  }

  /** Blanks and comments. */
  datatype Gap = NoGap | Blank(c: char, more: Gap) | Remark(comment: Comment, more: Gap)

  predicate IsGap(gap: Gap) {
    match gap
    case NoGap => true
    case Blank(c, more) => IsBlank(c) && IsGap(more)
    case Remark(comment, more) => IsComment(comment) && IsGap(more)
  }

  function GapText(gap: Gap): string {
    match gap
    case NoGap => ""
    case Blank(c, more) => [c] + GapText(more)
    case Remark(comment, more) => "(" + (CommentText(comment) + (")" + GapText(more)))
  }

  // ---- Words

  /** What stands between quotes, or between the brackets of a domain literal. */
  datatype Content = Done | Char(c: char, more: Content) | Pair(c: char, more: Content)

  predicate IsQuotable(content: Content) {
    match content
    case Done => true
    case Char(c, more) => (IsBlank(c) || IsVisible(c)) && c != '"' && c != '\\' && IsQuotable(more)
    case Pair(c, more) => (IsBlank(c) || IsVisible(c)) && IsQuotable(more)
  }

  predicate IsLiteral(content: Content) {
    match content
    case Done => true
    case Char(c, more) => (IsBlank(c) || (IsVisible(c) && c != '[' && c != ']' && c != '\\')) && IsLiteral(more)
    case Pair(c, more) => (IsBlank(c) || IsVisible(c)) && IsLiteral(more)
  }

  function ContentText(content: Content): string {
    match content
    case Done => ""
    case Char(c, more) => [c] + ContentText(more)
    case Pair(c, more) => ['\\', c] + ContentText(more)
  }

  /** The content without its blanks; those after a backslash stay. */
  function Unspaced(content: Content): Content {
    match content
    case Done => Done
    case Char(c, more) => if IsBlank(c) then Unspaced(more) else Char(c, Unspaced(more))
    case Pair(c, more) => Pair(c, Unspaced(more))
  }

  datatype Word = Run(text: string) | Quoted(content: Content)

  predicate IsWord(word: Word) {
    match word
    case Run(text) => IsRun(text)
    case Quoted(content) => IsQuotable(content)
  }

  function WordText(word: Word): string {
    match word
    case Run(text) => text
    case Quoted(content) => "\"" + (ContentText(content) + "\"")
  }

  /** A word with the gaps around it. */
  datatype Dressed = Dressed(before: Gap, word: Word, after: Gap)

  predicate IsDressed(d: Dressed) {
    IsGap(d.before) && IsWord(d.word) && IsGap(d.after)
  }

  function DressedText(d: Dressed): string {
    GapText(d.before) + (WordText(d.word) + GapText(d.after))
  }

  predicate AreDressed(words: seq<Dressed>) {
    words != [] && forall k | 0 <= k < |words| :: IsDressed(words[k])
  }

  /** Words with dots between them. */
  function Dotted(words: seq<Dressed>): string {
    if words == [] then "" else if |words| == 1 then DressedText(words[0])
    else DressedText(words[0]) + ("." + Dotted(words[1..]))
  }

  /** The words and the dots between them. */
  function BareText(words: seq<Dressed>): string {
    if words == [] then ""
    else if |words| == 1 then WordText(words[0].word)
    else WordText(words[0].word) + ("." + BareText(words[1..]))
  }

  // ---- Identifiers

  datatype Right = Domain(atoms: seq<Dressed>) | Literal(before: Gap, content: Content, after: Gap)

  predicate IsRight(right: Right) {
    match right
    case Domain(atoms) => AreDressed(atoms) && forall k | 0 <= k < |atoms| :: atoms[k].word.Run?
    case Literal(before, content, after) =>
      IsGap(before) && IsLiteral(content) && Unspaced(content) != Done && IsGap(after)
  }

  function RightText(right: Right): string {
    match right
    case Domain(atoms) => Dotted(atoms)
    case Literal(before, content, after) => GapText(before) + ("[" + (ContentText(content) + ("]" + GapText(after))))
  }

  datatype Id = Id(left: seq<Dressed>, right: Right)

  predicate IsId(id: Id) {
    AreDressed(id.left) && IsRight(id.right)
  }

  function IdText(id: Id): string {
    "<" + (Dotted(id.left) + "@" + RightText(id.right)) + ">"
  }

  function BareRight(right: Right): string {
    match right
    case Domain(atoms) => BareText(atoms)
    case Literal(_, content, _) => "[" + (ContentText(Unspaced(content)) + "]")
  }

  /** The identifier without its gaps, and without blanks in a domain literal. */
  function BareId(id: Id): string {
    "<" + (BareText(id.left) + "@" + BareRight(id.right)) + ">"
  }

  predicate AreBare(words: seq<Dressed>) {
    forall k | 0 <= k < |words| :: words[k].before == NoGap && words[k].word.Run? && words[k].after == NoGap
  }

  /** Nothing but atoms joined by dots, or a literal without blanks to the right. */
  predicate IsCurrent(id: Id) {
    && AreBare(id.left)
    && match id.right
       case Domain(atoms) => AreBare(atoms)
       case Literal(before, content, after) => before == NoGap && Unspaced(content) == content && after == NoGap
  }

  // ---- Phrases

  /** A word of a phrase, which may hold other characters than ASCII, or an
      encoded-word of section 2 of RFC 2047. */
  datatype PhraseWord = PhraseRun(text: string) | PhraseQuote(content: Content) | PhraseEncoded(text: string)

  predicate IsPhraseQuote(content: Content) {
    match content
    case Done => true
    case Char(c, more) =>
      (IsBlank(c) || IsVisible(c) || IsForeign(c)) && c != '"' && c != '\\' && IsPhraseQuote(more)
    case Pair(c, more) => (IsBlank(c) || IsVisible(c)) && IsPhraseQuote(more)
  }

  /** A run does not begin as an encoded-word does. */
  ghost predicate IsPhraseWord(word: PhraseWord) {
    match word
    case PhraseRun(text) =>
      text != "" && !("=?" <= text) && forall k | 0 <= k < |text| :: IsIdChar(text[k]) || IsForeign(text[k])
    case PhraseQuote(content) => IsPhraseQuote(content)
    case PhraseEncoded(text) => IsEncodedWord(text)
  }

  function PhraseWordText(word: PhraseWord): string {
    match word
    case PhraseRun(text) => text
    case PhraseQuote(content) => "\"" + (ContentText(content) + "\"")
    case PhraseEncoded(text) => text
  }

  predicate EndsInBlank(gap: Gap) {
    match gap
    case NoGap => false
    case Blank(_, more) => more == NoGap || EndsInBlank(more)
    case Remark(_, more) => EndsInBlank(more)
  }

  /** What follows the first word of a phrase: gaps, dots and words. */
  datatype Tail = TailEnd | TailGap(gap: Gap, more: Tail) | TailDot(more: Tail) | TailWord(word: PhraseWord, more: Tail)

  /** A blank follows, or the end of the value. */
  predicate LeavesBlank(tail: Tail, last: bool) {
    (tail.TailEnd? && last) || (tail.TailGap? && tail.gap.Blank?)
  }

  /** No two runs stand side by side, and blanks or the ends of the value stand
      around every encoded-word; `last` says that nothing follows the phrase. */
  ghost predicate IsTail(tail: Tail, afterRun: bool, afterBlank: bool, last: bool) {
    match tail
    case TailEnd => true
    case TailGap(gap, more) => IsGap(gap) && gap != NoGap && IsTail(more, false, EndsInBlank(gap), last)
    case TailDot(more) => IsTail(more, false, false, last)
    case TailWord(word, more) =>
      && IsPhraseWord(word) && !(afterRun && word.PhraseRun?)
      && (word.PhraseEncoded? ==> afterBlank && LeavesBlank(more, last))
      && IsTail(more, word.PhraseRun?, false, last)
  }

  function TailText(tail: Tail): string {
    match tail
    case TailEnd => ""
    case TailGap(gap, more) => GapText(gap) + TailText(more)
    case TailDot(more) => "." + TailText(more)
    case TailWord(word, more) => PhraseWordText(word) + TailText(more)
  }

  // ---- Values

  /** What a field's value is made of. */
  datatype Value = ValueEnd | ValueGap(gap: Gap, more: Value) | ValueId(id: Id, more: Value)
                 | ValuePhrase(first: PhraseWord, tail: Tail, more: Value)

  /** Phrases belong to the obsolete syntax, and end at an identifier or the end of
      the value; so do comments, blanks and quotes inside identifiers. */
  ghost predicate IsValue(value: Value, obsolete: bool, afterBlank: bool) {
    match value
    case ValueEnd => true
    case ValueGap(gap, more) => IsGap(gap) && gap != NoGap && IsValue(more, obsolete, EndsInBlank(gap))
    case ValueId(id, more) => IsId(id) && (obsolete || IsCurrent(id)) && IsValue(more, obsolete, false)
    case ValuePhrase(first, tail, more) =>
      && obsolete && (more.ValueEnd? || more.ValueId?) && IsValue(more, obsolete, false)
      && IsTail(TailWord(first, tail), false, afterBlank, more.ValueEnd?)
  }

  function ValueText(value: Value): string {
    match value
    case ValueEnd => ""
    case ValueGap(gap, more) => GapText(gap) + ValueText(more)
    case ValueId(id, more) => IdText(id) + ValueText(more)
    case ValuePhrase(first, tail, more) => TailText(TailWord(first, tail)) + ValueText(more)
  }

  /** The identifiers of a value, without their comments and blanks. */
  function IdsIn(value: Value): seq<string> {
    match value
    case ValueEnd => []
    case ValueGap(_, more) => IdsIn(more)
    case ValueId(id, more) => [BareId(id)] + IdsIn(more)
    case ValuePhrase(_, _, more) => IdsIn(more)
  }
}
