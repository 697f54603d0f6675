/**
 The rule set the BBCode converter builds (`YafBBCode.CreateBBCodeRules`): which
 replace rules go into the engine for each combination of flags, in which
 order and with which rank. The regular expressions and replacement templates
 of the rules are not modelled; a rule is its kind, the link attributes it
 writes where it writes any, and its rank. The engine processes rules by rank
 (lower first); each rule class starts its rules at a default rank of its own,
 which the model takes as a board setting.
 */
module BBCodeRules {
  import opened Text
  import Smilies
  import FormatEdits

  /** The rule classes whose default rank a rule starts with. */
  datatype RuleClass =
    | SyntaxHighlightedCodeClass
    | CodeClass
    | FontSizeClass
    | SimpleRegexClass
    | VariableRegexClass
    | SingleRegexClass
    | SimpleReplaceClass
    | PostTopicClass

  /** The default rank of each rule class. */
  datatype Ranks = Ranks(syntaxHighlightedCode: int, code: int, fontSize: int, simpleRegex: int,
                         variableRegex: int, singleRegex: int, simpleReplace: int, postTopic: int)
  {
    function Of(cls: RuleClass): int {
      match cls
      case SyntaxHighlightedCodeClass => syntaxHighlightedCode
      case CodeClass => code
      case FontSizeClass => fontSize
      case SimpleRegexClass => simpleRegex
      case VariableRegexClass => variableRegex
      case SingleRegexClass => singleRegex
      case SimpleReplaceClass => simpleReplace
      case PostTopicClass => postTopic
    }
  }

  /** The `target` and `rel` attributes a link rule writes into its anchor. */
  datatype LinkAttributes = LinkAttributes(target: string, nofollow: string)

  datatype RuleKind =
    | Code2 | Code1 | Size
    | Bold | Strike | Italic | Underline | Highlight
    | Email2 | Email1 | Url2(attrs: LinkAttributes) | Url1(attrs: LinkAttributes)
    | Font | Color | Bullet | List4 | List3 | List2 | List1
    | Center | Left | Right | Image
    | Custom(search: string, replace: string, variables: Option<seq<string>>)
    | Hr | Br
    | Smile(find: string, replacement: string)
    | Quote2 | Quote1 | Quote3
    | Post(target: string) | Topic(target: string)
    | AutoEmail | AutoUrl(variant: nat, attrs: LinkAttributes)

  datatype Rule = Rule(kind: RuleKind, rank: int)

  /** A row of the custom BBCode table; `None` is a database null. */
  datatype CustomRow = CustomRow(useModule: Option<bool>, searchRegex: Option<string>,
                                 replaceRegex: string, variables: Option<string>)

  /** The board settings and services the rule set depends on. */
  datatype Board = Board(
    blankLinks: bool,
    useNoFollowLinks: bool,
    disableNoFollowLinksAfterDay: int,
    customRows: seq<CustomRow>,
    smiles: seq<Smilies.Smiley>,
    defaultRank: Ranks,
    smileyLink: string -> string,
    htmlEncode: string -> string,
    acceptedTags: string -> bool)

  /** YAF's string extension `IsSet`: `!string.IsNullOrWhiteSpace(s)`, a
      string that is not null and has something left after `Trim`. */
  predicate IsSet(s: Option<string>) {
    s.Some? && Trim(s.value) != []
  }

  /** A string is set exactly when it is present and holds a character that
      is not white space; null, empty and all-blank strings are not set. */
  lemma IsSetSpec(s: Option<string>)
    ensures IsSet(s) <==> s.Some? && exists i :: 0 <= i < |s.value| && !IsWhiteSpace(s.value[i])
  {
    if s.Some? {
      var v := s.value;
      TrimSpec(v);
      var k :| OccursAt(Trim(v), v, k)
               && (forall i :: 0 <= i < k ==> IsWhiteSpace(v[i]))
               && (forall i :: k + |Trim(v)| <= i < |v| ==> IsWhiteSpace(v[i]));
      if Trim(v) != [] {
        assert v[k] == Trim(v)[0];
      } else {
        assert forall i :: 0 <= i < |v| ==> IsWhiteSpace(v[i]);
      }
    }
  }

  const BlankTarget: string := "target=\"_blank\""
  const NoFollowRel: string := "rel=\"nofollow\""

  /** The attributes every link rule of one rule set gets. */
  function Attributes(board: Board, targetBlankOverride: bool, useNoFollow: bool): LinkAttributes {
    LinkAttributes(if board.blankLinks || targetBlankOverride then BlankTarget else "",
                   if useNoFollow then NoFollowRel else "")
  }

  // ---------------------------------------------------------------------------
  // Custom BBCode

  /** The rows `AddCustomBBCodeRules` turns into rules. */
  predicate Eligible(row: CustomRow) {
    row.useModule != Some(true) && IsSet(row.searchRegex)
  }

  /** The rule of an eligible row: a variable rule when it names variables,
      a plain one otherwise, both ranked 50. */
  function CustomRule(row: CustomRow): Rule
    requires Eligible(row)
  {
    var vars := if IsSet(row.variables) then Some(Split(row.variables.value, ';')) else None;
    Rule(Custom(row.searchRegex.value, row.replaceRegex, vars), 50)
  }

  /** `AddCustomBBCodeRules`. */
  function CustomRules(rows: seq<CustomRow>): (r: seq<Rule>)
    ensures |r| <= |rows|
  {
    if rows == [] then []
    else (if Eligible(rows[0]) then [CustomRule(rows[0])] else []) + CustomRules(rows[1..])
  }

  /** The rows that give a rule, in table order. */
  function EligibleRows(rows: seq<CustomRow>): (r: seq<CustomRow>)
    ensures forall x :: x in r <==> x in rows && Eligible(x)
    ensures forall k :: 0 <= k < |r| ==> Eligible(r[k])
  {
    if rows == [] then []
    else (if Eligible(rows[0]) then [rows[0]] else []) + EligibleRows(rows[1..])
  }

  /** Exactly one rule per eligible row, in table order. */
  lemma {:induction false} CustomRulesPerRow(rows: seq<CustomRow>)
    ensures |CustomRules(rows)| == |EligibleRows(rows)|
    ensures forall k :: 0 <= k < |CustomRules(rows)| ==> CustomRules(rows)[k] == CustomRule(EligibleRows(rows)[k])
  {
    if rows != [] {
      CustomRulesPerRow(rows[1..]);
    }
  }

  /** The rule of the `k`-th eligible row is ranked 50, searches and
      replaces with the row's patterns, and has the row's variables split at
      `;` exactly when the row sets them. */
  lemma CustomRulesMatchRows(rows: seq<CustomRow>)
    ensures |CustomRules(rows)| == |EligibleRows(rows)|
    ensures forall k :: 0 <= k < |CustomRules(rows)| ==>
              var row := EligibleRows(rows)[k];
              var rule := CustomRules(rows)[k];
              rule.rank == 50 && rule.kind.Custom?
              && rule.kind.search == row.searchRegex.value && rule.kind.replace == row.replaceRegex
              && (rule.kind.variables.Some? <==> IsSet(row.variables))
              && (rule.kind.variables.Some? ==> rule.kind.variables.value == Split(row.variables.value, ';'))
  {
    CustomRulesPerRow(rows);
  }

  /** A table whose rows all use a module or have no search pattern gives
      no rule. */
  lemma {:induction false} IneligibleRowsIgnored(rows: seq<CustomRow>)
    requires forall k :: 0 <= k < |rows| ==> !Eligible(rows[k])
    ensures CustomRules(rows) == []
  {
    if rows != [] {
      IneligibleRowsIgnored(rows[1..]);
    }
  }

  // ---------------------------------------------------------------------------
  // The rule set, block by block

  function DefaultRule(board: Board, kind: RuleKind, cls: RuleClass): Rule {
    Rule(kind, board.defaultRank.Of(cls))
  }

  /** The two code rules and the font size rule, added whatever the flags. */
  function CodeRules(board: Board): seq<Rule> {
    [DefaultRule(board, Code2, SyntaxHighlightedCodeClass),
     DefaultRule(board, Code1, CodeClass),
     DefaultRule(board, Size, FontSizeClass)]
  }

  /** Bold, strike, italic, underline and highlight. */
  function StyleRules(board: Board): seq<Rule> {
    [DefaultRule(board, Bold, SimpleRegexClass), DefaultRule(board, Strike, SimpleRegexClass),
     DefaultRule(board, Italic, SimpleRegexClass), DefaultRule(board, Underline, SimpleRegexClass),
     DefaultRule(board, Highlight, SimpleRegexClass)]
  }

  /** E-mail addresses and links, the links with the attributes of the set. */
  function LinkRules(board: Board, attrs: LinkAttributes): seq<Rule> {
    [DefaultRule(board, Email2, VariableRegexClass), DefaultRule(board, Email1, SimpleRegexClass),
     DefaultRule(board, Url2(attrs), VariableRegexClass), DefaultRule(board, Url1(attrs), VariableRegexClass)]
  }

  function FontRules(board: Board): seq<Rule> {
    [DefaultRule(board, Font, VariableRegexClass), DefaultRule(board, Color, VariableRegexClass)]
  }

  /** The bullet and the four list types. */
  function ListRules(board: Board): seq<Rule> {
    [DefaultRule(board, Bullet, SingleRegexClass),
     DefaultRule(board, List4, SimpleRegexClass), DefaultRule(board, List3, SimpleRegexClass),
     DefaultRule(board, List2, SimpleRegexClass), DefaultRule(board, List1, SimpleRegexClass)]
  }

  /** Alignment and the image rule. */
  function AlignImageRules(board: Board): seq<Rule> {
    [DefaultRule(board, Center, SimpleRegexClass), DefaultRule(board, Left, SimpleRegexClass),
     DefaultRule(board, Right, SimpleRegexClass), DefaultRule(board, Image, VariableRegexClass)]
  }

  /** The fixed formatting rules, in the order they are added. */
  function FixedFormattingRules(board: Board, attrs: LinkAttributes): seq<Rule> {
    StyleRules(board) + LinkRules(board, attrs) + FontRules(board) + ListRules(board) + AlignImageRules(board)
  }

  /** `hr`, and the `br` rule ranked right after it. */
  function HrBrRules(board: Board): seq<Rule> {
    var hr := board.defaultRank.Of(SingleRegexClass);
    [Rule(Hr, hr), Rule(Br, hr + 1)]
  }

  /** The rules added only when formatting is on. */
  function FormattingRules(board: Board, attrs: LinkAttributes): seq<Rule> {
    FixedFormattingRules(board, attrs) + CustomRules(board.customRows) + HrBrRules(board)
  }

  /** The smiley rules of `AddSmiles`, as engine rules. */
  function SmileyRules(board: Board): (r: seq<Rule>)
    ensures |r| == 2 * |board.smiles|
  {
    var rs := Smilies.AddSmiles([], board.smiles, board.defaultRank.Of(SimpleReplaceClass), board.smileyLink, board.htmlEncode);
    seq(|rs|, i requires 0 <= i < |rs| => Rule(Smile(rs[i].find, rs[i].replacement), rs[i].rank))
  }

  function QuoteRules(board: Board): seq<Rule> {
    [DefaultRule(board, Quote2, VariableRegexClass),
     DefaultRule(board, Quote1, SimpleRegexClass),
     DefaultRule(board, Quote3, VariableRegexClass)]
  }

  function PostTopicRules(board: Board, target: string): seq<Rule> {
    [DefaultRule(board, Post(target), PostTopicClass), DefaultRule(board, Topic(target), PostTopicClass)]
  }

  /** `CreateBBCodeRules`. */
  function CreateBBCodeRules(board: Board, doFormatting: bool, targetBlankOverride: bool,
                             useNoFollow: bool, convertBBQuotes: bool): seq<Rule>
  {
    var attrs := Attributes(board, targetBlankOverride, useNoFollow);
    CodeRules(board)
    + (if doFormatting then FormattingRules(board, attrs) else [])
    + SmileyRules(board)
    + (if convertBBQuotes then QuoteRules(board) else [])
    + PostTopicRules(board, attrs.target)
  }

  /** A kind that only the formatting block adds. */
  predicate IsFormatting(k: RuleKind) {
    !(k.Code2? || k.Code1? || k.Size? || k.Smile? || k.Quote2? || k.Quote1? || k.Quote3?
      || k.Post? || k.Topic? || k.AutoEmail? || k.AutoUrl?)
  }

  predicate IsQuote(k: RuleKind) {
    k.Quote2? || k.Quote1? || k.Quote3?
  }

  predicate HasKind(rules: seq<Rule>, k: RuleKind) {
    exists r :: r in rules && r.kind == k
  }

  /** A rule of the set comes from exactly the blocks the flags switch on. */
  lemma CreateBlocks(board: Board, doFormatting: bool, targetBlankOverride: bool, useNoFollow: bool, convertBBQuotes: bool)
    ensures var attrs := Attributes(board, targetBlankOverride, useNoFollow);
      forall r :: r in CreateBBCodeRules(board, doFormatting, targetBlankOverride, useNoFollow, convertBBQuotes)
        <==> r in CodeRules(board) || (doFormatting && r in FormattingRules(board, attrs))
             || r in SmileyRules(board) || (convertBBQuotes && r in QuoteRules(board))
             || r in PostTopicRules(board, attrs.target)
  {
  }

  /** What any rule of a set is: a formatting rule only when formatting is
      on, a quote rule only when quotes are converted, a link with the
      attributes of the set, `hr`/`br` with the ranks of their class, and
      never one of the automatic link rules. */
  predicate RuleShape(r: Rule, board: Board, doFormatting: bool, convertBBQuotes: bool, attrs: LinkAttributes) {
    !r.kind.AutoEmail? && !r.kind.AutoUrl?
    && (IsFormatting(r.kind) ==> doFormatting)
    && (IsQuote(r.kind) ==> convertBBQuotes)
    && ((r.kind.Url1? || r.kind.Url2?) ==> r.kind.attrs == attrs)
    && ((r.kind.Post? || r.kind.Topic?) ==> r.kind.target == attrs.target)
    && (r.kind.Hr? ==> r.rank == board.defaultRank.Of(SingleRegexClass))
    && (r.kind.Br? ==> r.rank == board.defaultRank.Of(SingleRegexClass) + 1)
  }

  /** Every rule of a list has the shape. */
  predicate AllShaped(rules: seq<Rule>, board: Board, doFormatting: bool, convertBBQuotes: bool, attrs: LinkAttributes) {
    forall r :: r in rules ==> RuleShape(r, board, doFormatting, convertBBQuotes, attrs)
  }

  lemma ConcatShaped(a: seq<Rule>, b: seq<Rule>, c: seq<Rule>, d: seq<Rule>, e: seq<Rule>,
                     board: Board, doFormatting: bool, convertBBQuotes: bool, attrs: LinkAttributes)
    requires AllShaped(a, board, doFormatting, convertBBQuotes, attrs) && AllShaped(b, board, doFormatting, convertBBQuotes, attrs)
    requires AllShaped(c, board, doFormatting, convertBBQuotes, attrs) && AllShaped(d, board, doFormatting, convertBBQuotes, attrs)
    requires AllShaped(e, board, doFormatting, convertBBQuotes, attrs)
    ensures AllShaped(a + b + c + d + e, board, doFormatting, convertBBQuotes, attrs)
  {
  }

  lemma {:induction false} CustomRulesShape(rows: seq<CustomRow>)
    ensures forall r :: r in CustomRules(rows) ==> r.kind.Custom? && r.rank == 50
  {
    if rows != [] {
      CustomRulesShape(rows[1..]);
    }
  }

  lemma StyleShaped(board: Board, convertBBQuotes: bool, attrs: LinkAttributes)
    ensures AllShaped(StyleRules(board), board, true, convertBBQuotes, attrs)
  {
  }

  lemma LinkShaped(board: Board, convertBBQuotes: bool, attrs: LinkAttributes)
    ensures AllShaped(LinkRules(board, attrs), board, true, convertBBQuotes, attrs)
  {
  }

  lemma FontShaped(board: Board, convertBBQuotes: bool, attrs: LinkAttributes)
    ensures AllShaped(FontRules(board), board, true, convertBBQuotes, attrs)
  {
  }

  lemma ListShaped(board: Board, convertBBQuotes: bool, attrs: LinkAttributes)
    ensures AllShaped(ListRules(board), board, true, convertBBQuotes, attrs)
  {
  }

  lemma AlignImageShaped(board: Board, convertBBQuotes: bool, attrs: LinkAttributes)
    ensures AllShaped(AlignImageRules(board), board, true, convertBBQuotes, attrs)
  {
  }

  lemma HrBrShaped(board: Board, convertBBQuotes: bool, attrs: LinkAttributes)
    ensures AllShaped(HrBrRules(board), board, true, convertBBQuotes, attrs)
  {
  }

  lemma CustomShaped(rows: seq<CustomRow>, board: Board, convertBBQuotes: bool, attrs: LinkAttributes)
    ensures AllShaped(CustomRules(rows), board, true, convertBBQuotes, attrs)
  {
    CustomRulesShape(rows);
  }

  lemma FixedShaped(board: Board, convertBBQuotes: bool, attrs: LinkAttributes)
    ensures AllShaped(FixedFormattingRules(board, attrs), board, true, convertBBQuotes, attrs)
  {
    StyleShaped(board, convertBBQuotes, attrs);
    LinkShaped(board, convertBBQuotes, attrs);
    FontShaped(board, convertBBQuotes, attrs);
    ListShaped(board, convertBBQuotes, attrs);
    AlignImageShaped(board, convertBBQuotes, attrs);
    ConcatShaped(StyleRules(board), LinkRules(board, attrs), FontRules(board), ListRules(board), AlignImageRules(board),
                 board, true, convertBBQuotes, attrs);
  }

  /** The formatting block holds formatting kinds only, its links carry the
      attributes of the set, and `hr` and `br` have the ranks of their class. */
  lemma FormattingShaped(board: Board, convertBBQuotes: bool, attrs: LinkAttributes)
    ensures AllShaped(FormattingRules(board, attrs), board, true, convertBBQuotes, attrs)
  {
    FixedShaped(board, convertBBQuotes, attrs);
    CustomShaped(board.customRows, board, convertBBQuotes, attrs);
    HrBrShaped(board, convertBBQuotes, attrs);
    ConcatShaped(FixedFormattingRules(board, attrs), CustomRules(board.customRows), HrBrRules(board), [], [],
                 board, true, convertBBQuotes, attrs);
  }

  lemma SmileyBlock(board: Board)
    ensures forall r :: r in SmileyRules(board) ==> r.kind.Smile?
  {
  }

  lemma SmileyShaped(board: Board, doFormatting: bool, convertBBQuotes: bool, attrs: LinkAttributes)
    ensures AllShaped(SmileyRules(board), board, doFormatting, convertBBQuotes, attrs)
  {
    SmileyBlock(board);
  }

  lemma CodeShaped(board: Board, doFormatting: bool, convertBBQuotes: bool, attrs: LinkAttributes)
    ensures AllShaped(CodeRules(board), board, doFormatting, convertBBQuotes, attrs)
  {
  }

  lemma QuoteShaped(board: Board, doFormatting: bool, attrs: LinkAttributes)
    ensures AllShaped(QuoteRules(board), board, doFormatting, true, attrs)
  {
  }

  lemma PostTopicShaped(board: Board, doFormatting: bool, convertBBQuotes: bool, attrs: LinkAttributes)
    ensures AllShaped(PostTopicRules(board, attrs.target), board, doFormatting, convertBBQuotes, attrs)
  {
  }

  /** Every rule of every set has the shape its flags allow. */
  lemma CreateShape(board: Board, doFormatting: bool, targetBlankOverride: bool, useNoFollow: bool, convertBBQuotes: bool)
    ensures AllShaped(CreateBBCodeRules(board, doFormatting, targetBlankOverride, useNoFollow, convertBBQuotes),
                      board, doFormatting, convertBBQuotes, Attributes(board, targetBlankOverride, useNoFollow))
  {
    var attrs := Attributes(board, targetBlankOverride, useNoFollow);
    var f := if doFormatting then FormattingRules(board, attrs) else [];
    var q := if convertBBQuotes then QuoteRules(board) else [];
    CodeShaped(board, doFormatting, convertBBQuotes, attrs);
    if doFormatting {
      FormattingShaped(board, convertBBQuotes, attrs);
    }
    SmileyShaped(board, doFormatting, convertBBQuotes, attrs);
    if convertBBQuotes {
      QuoteShaped(board, doFormatting, attrs);
    }
    PostTopicShaped(board, doFormatting, convertBBQuotes, attrs);
    ConcatShaped(CodeRules(board), f, SmileyRules(board), q, PostTopicRules(board, attrs.target),
                 board, doFormatting, convertBBQuotes, attrs);
  }

  lemma FormattingHasBold(board: Board, attrs: LinkAttributes)
    ensures DefaultRule(board, Bold, SimpleRegexClass) in FormattingRules(board, attrs)
  {
    assert StyleRules(board)[0] == DefaultRule(board, Bold, SimpleRegexClass);
  }

  /** No formatting rule is added without formatting, and with it all of
      them are, custom rules included. */
  lemma FormattingOnlyWhenAsked(board: Board, doFormatting: bool, targetBlankOverride: bool, useNoFollow: bool, convertBBQuotes: bool)
    ensures var rules := CreateBBCodeRules(board, doFormatting, targetBlankOverride, useNoFollow, convertBBQuotes);
      var attrs := Attributes(board, targetBlankOverride, useNoFollow);
      (doFormatting <==> (exists r :: r in rules && IsFormatting(r.kind)))
      && (doFormatting ==> forall r :: r in FormattingRules(board, attrs) ==> r in rules)
  {
    FormattingNeedsFlag(board, doFormatting, targetBlankOverride, useNoFollow, convertBBQuotes);
    if doFormatting {
      FormattingAllThere(board, targetBlankOverride, useNoFollow, convertBBQuotes);
    }
  }

  lemma FormattingNeedsFlag(board: Board, doFormatting: bool, targetBlankOverride: bool, useNoFollow: bool, convertBBQuotes: bool)
    ensures var rules := CreateBBCodeRules(board, doFormatting, targetBlankOverride, useNoFollow, convertBBQuotes);
      (exists r :: r in rules && IsFormatting(r.kind)) ==> doFormatting
  {
    CreateShape(board, doFormatting, targetBlankOverride, useNoFollow, convertBBQuotes);
  }

  lemma FormattingAllThere(board: Board, targetBlankOverride: bool, useNoFollow: bool, convertBBQuotes: bool)
    ensures var rules := CreateBBCodeRules(board, true, targetBlankOverride, useNoFollow, convertBBQuotes);
      var attrs := Attributes(board, targetBlankOverride, useNoFollow);
      (exists r :: r in rules && IsFormatting(r.kind))
      && (forall r :: r in FormattingRules(board, attrs) ==> r in rules)
  {
    var attrs := Attributes(board, targetBlankOverride, useNoFollow);
    var rules := CreateBBCodeRules(board, true, targetBlankOverride, useNoFollow, convertBBQuotes);
    CreateBlocks(board, true, targetBlankOverride, useNoFollow, convertBBQuotes);
    FormattingHasBold(board, attrs);
    assert IsFormatting(DefaultRule(board, Bold, SimpleRegexClass).kind);
  }

  /** The quote rules are there exactly when quotes are converted. */
  lemma QuotesOnlyWhenAsked(board: Board, doFormatting: bool, targetBlankOverride: bool, useNoFollow: bool, convertBBQuotes: bool)
    ensures var rules := CreateBBCodeRules(board, doFormatting, targetBlankOverride, useNoFollow, convertBBQuotes);
      (convertBBQuotes <==> (exists r :: r in rules && IsQuote(r.kind)))
      && (convertBBQuotes ==> forall r :: r in QuoteRules(board) ==> r in rules)
  {
    var rules := CreateBBCodeRules(board, doFormatting, targetBlankOverride, useNoFollow, convertBBQuotes);
    CreateShape(board, doFormatting, targetBlankOverride, useNoFollow, convertBBQuotes);
    if convertBBQuotes {
      var q := QuoteRules(board);
      CreateBlocks(board, doFormatting, targetBlankOverride, useNoFollow, convertBBQuotes);
      assert q[0] == Rule(Quote2, board.defaultRank.Of(VariableRegexClass));
      assert q[0] in rules;
    }
  }

  /** The code, font size, smiley, post and topic rules are there whatever
      the flags. */
  lemma AlwaysPresent(board: Board, doFormatting: bool, targetBlankOverride: bool, useNoFollow: bool, convertBBQuotes: bool)
    ensures var rules := CreateBBCodeRules(board, doFormatting, targetBlankOverride, useNoFollow, convertBBQuotes);
      var attrs := Attributes(board, targetBlankOverride, useNoFollow);
      forall r :: r in CodeRules(board) + SmileyRules(board) + PostTopicRules(board, attrs.target) ==> r in rules
  {
    CreateBlocks(board, doFormatting, targetBlankOverride, useNoFollow, convertBBQuotes);
  }

  /** `br` ranks exactly one above `hr`, so the engine runs the `hr` rule
      first. */
  lemma BrRightAfterHr(board: Board, doFormatting: bool, targetBlankOverride: bool, useNoFollow: bool, convertBBQuotes: bool)
    ensures var rules := CreateBBCodeRules(board, doFormatting, targetBlankOverride, useNoFollow, convertBBQuotes);
      forall a, b :: a in rules && b in rules && a.kind == Hr && b.kind == Br ==> b.rank == a.rank + 1
  {
    CreateShape(board, doFormatting, targetBlankOverride, useNoFollow, convertBBQuotes);
  }

  /** Every link a rule set writes gets `target="_blank"` exactly when the
      board opens links in a new window or the caller asks for it, and
      `rel="nofollow"` exactly when nofollow is on; otherwise nothing. */
  lemma LinkAttributesAgree(board: Board, doFormatting: bool, targetBlankOverride: bool, useNoFollow: bool, convertBBQuotes: bool)
    ensures var rules := CreateBBCodeRules(board, doFormatting, targetBlankOverride, useNoFollow, convertBBQuotes);
      forall r :: r in rules ==>
        ((r.kind.Url1? || r.kind.Url2?) ==>
           r.kind.attrs.target == (if board.blankLinks || targetBlankOverride then BlankTarget else "")
           && r.kind.attrs.nofollow == (if useNoFollow then NoFollowRel else ""))
        && ((r.kind.Post? || r.kind.Topic?) ==>
           r.kind.target == (if board.blankLinks || targetBlankOverride then BlankTarget else ""))
  {
    CreateShape(board, doFormatting, targetBlankOverride, useNoFollow, convertBBQuotes);
  }

  /** Every rule set holds at least the code and link rules. */
  lemma CreateNonEmpty(board: Board, doFormatting: bool, targetBlankOverride: bool, useNoFollow: bool, convertBBQuotes: bool)
    ensures |CreateBBCodeRules(board, doFormatting, targetBlankOverride, useNoFollow, convertBBQuotes)| >= 5
  {
  }

  // ---------------------------------------------------------------------------
  // The engine cache

  /** `ReplaceRulesCreator` keeps one engine per key of flags; an engine
      nobody populated yet has no rules. */
  type Cache = map<seq<bool>, seq<Rule>>

  function Engine(cache: Cache, key: seq<bool>): seq<Rule> {
    if key in cache then cache[key] else []
  }

  /** The engine for `key`, populated with `rules` when it has none yet. */
  function Populate(cache: Cache, key: seq<bool>, rules: seq<Rule>): (r: (Cache, seq<Rule>))
    ensures Engine(r.0, key) == r.1
    ensures forall k :: k != key ==> Engine(r.0, k) == Engine(cache, k)
    ensures Engine(cache, key) != [] ==> r.1 == Engine(cache, key) && r.0 == cache
    ensures Engine(cache, key) == [] ==> r.1 == rules
  {
    if Engine(cache, key) != [] then (cache, Engine(cache, key))
    else (cache[key := rules], rules)
  }

  /** `MakeHtml`: the engine for its flags and the rules it runs. */
  function MakeHtml(cache: Cache, board: Board, doFormatting: bool, targetBlankOverride: bool): (Cache, seq<Rule>) {
    Populate(cache, [doFormatting, targetBlankOverride, board.useNoFollowLinks],
             CreateBBCodeRules(board, doFormatting, targetBlankOverride, board.useNoFollowLinks, true))
  }

  /** The key of the editor's engine, one flag longer than the others. */
  function EditKey(board: Board): seq<bool> {
    [true, false, board.useNoFollowLinks, true]
  }

  /** `ConvertBBCodeToHtmlForEdit`, whose engine has a key of its own and no
      quote rules. */
  function ConvertBBCodeToHtmlForEdit(cache: Cache, board: Board): (Cache, seq<Rule>) {
    Populate(cache, EditKey(board), CreateBBCodeRules(board, true, false, board.useNoFollowLinks, false))
  }

  /** An engine once populated is never populated again, because a rule set
      is never empty: a second `MakeHtml` with the same flags changes nothing
      and runs the same rules. */
  lemma MakeHtmlOnce(cache: Cache, board: Board, doFormatting: bool, targetBlankOverride: bool)
    ensures var (c1, r1) := MakeHtml(cache, board, doFormatting, targetBlankOverride);
      r1 != [] && MakeHtml(c1, board, doFormatting, targetBlankOverride) == (c1, r1)
  {
    var key := [doFormatting, targetBlankOverride, board.useNoFollowLinks];
    if Engine(cache, key) == [] {
      CreateNonEmpty(board, doFormatting, targetBlankOverride, board.useNoFollowLinks, true);
    }
  }

  /** Text converted for the editor keeps its quotes: when its engine is
      fresh, or was filled by this converter before, it has no quote rule. */
  lemma ForEditKeepsQuotes(cache: Cache, board: Board)
    requires forall r :: r in Engine(cache, EditKey(board)) ==> !IsQuote(r.kind)
    ensures forall r :: r in ConvertBBCodeToHtmlForEdit(cache, board).1 ==> !IsQuote(r.kind)
    ensures var (c1, _) := ConvertBBCodeToHtmlForEdit(cache, board);
      forall r :: r in Engine(c1, EditKey(board)) ==> !IsQuote(r.kind)
  {
    QuotesOnlyWhenAsked(board, true, false, board.useNoFollowLinks, false);
  }

  // ---------------------------------------------------------------------------
  // FormatMessage

  /** Ticks of a .NET `TimeSpan` in one day. */
  const TicksPerDay: int := 864_000_000_000

  /** `TimeSpan.Days`: whole days, truncated toward zero. */
  function Days(ticks: int): (r: int)
    ensures ticks >= 0 ==> r >= 0 && r * TicksPerDay <= ticks < (r + 1) * TicksPerDay
    ensures ticks < 0 ==> r <= 0
  {
    if ticks >= 0 then ticks / TicksPerDay else -((-ticks) / TicksPerDay)
  }

  /** The nofollow decision of `FormatMessage` as written: the age is taken as
      last edit minus now, which is never positive for a message edited in
      the past. */
  function NoFollowAsWritten(useNoFollowLinks: bool, afterDays: int, lastEdited: int, now: int): bool {
    if useNoFollowLinks && afterDays > 0 && Days(lastEdited - now) > afterDays then false
    else useNoFollowLinks
  }

  /** The nofollow decision as intended: links of a message last edited more
      than `afterDays` whole days ago lose `rel="nofollow"`. */
  function NoFollow(useNoFollowLinks: bool, afterDays: int, lastEdited: int, now: int): bool {
    if useNoFollowLinks && afterDays > 0 && Days(now - lastEdited) > afterDays then false
    else useNoFollowLinks
  }

  /** As written, nofollow is never dropped for a message edited in the past. */
  lemma NoFollowAsWrittenNeverAges(useNoFollowLinks: bool, afterDays: int, lastEdited: int, now: int)
    requires lastEdited <= now
    ensures NoFollowAsWritten(useNoFollowLinks, afterDays, lastEdited, now) == useNoFollowLinks
  {
  }

  /** A message edited a hundred days ago on a board that drops nofollow after
      thirty days keeps it as written, and loses it as intended. */
  lemma NoFollowAgingCounterexample()
    ensures NoFollowAsWritten(true, 30, 0, 100 * TicksPerDay)
    ensures !NoFollow(true, 30, 0, 100 * TicksPerDay)
  {
    assert Days(100 * TicksPerDay) == 100;
  }

  lemma DaysAbove(t: int, a: int)
    requires a > 0
    ensures Days(t) > a <==> t >= (a + 1) * TicksPerDay
  {
    var d := Days(t);
    if t >= 0 {
      if d > a {
        assert d >= a + 1;
        MulMonotone(a + 1, d);
      } else if t >= (a + 1) * TicksPerDay {
        MulMonotone(d + 1, a + 1);
      }
    }
  }

  lemma MulMonotone(x: int, y: int)
    requires x <= y
    ensures x * TicksPerDay <= y * TicksPerDay
  {
  }

  /** The intended rule in closed form: nofollow is dropped exactly when the
      board enables it, sets an age limit of `a > 0` days, and the last edit
      lies at least `a + 1` whole days back. */
  lemma NoFollowAges(useNoFollowLinks: bool, afterDays: int, lastEdited: int, now: int)
    ensures NoFollow(useNoFollowLinks, afterDays, lastEdited, now)
      <==> useNoFollowLinks && !(afterDays > 0 && now - lastEdited >= (afterDays + 1) * TicksPerDay)
  {
    if afterDays > 0 {
      DaysAbove(now - lastEdited, afterDays);
    }
  }

  /** Once a message's links have lost nofollow they do not get it back as
      time passes. */
  lemma NoFollowStaysOff(useNoFollowLinks: bool, afterDays: int, lastEdited: int, now: int, later: int)
    requires now <= later
    requires !NoFollow(useNoFollowLinks, afterDays, lastEdited, now)
    ensures !NoFollow(useNoFollowLinks, afterDays, lastEdited, later)
  {
    NoFollowAges(useNoFollowLinks, afterDays, lastEdited, now);
    NoFollowAges(useNoFollowLinks, afterDays, lastEdited, later);
  }

  /** The rules `FormatMessage` adds after the BBCode rules: the e-mail rule
      and the three automatic link rules, all ranked 10. */
  function AutoLinkRules(attrs: LinkAttributes): seq<Rule> {
    [Rule(AutoEmail, 10), Rule(AutoUrl(0, attrs), 10), Rule(AutoUrl(1, attrs), 10), Rule(AutoUrl(2, attrs), 10)]
  }

  /** `FormatMessage` up to the rules engine once the nofollow decision is
      made: the repaired message, and the engine for the flags with its rules.
      Processing the rules and replacing bad words are not modelled. */
  function FormatWith(cache: Cache, board: Board, message: string, isHtml: bool, isBBCode: bool,
                      targetBlankOverride: bool, useNoFollow: bool): (Cache, string, seq<Rule>)
  {
    var repaired := FormatEdits.RepairHtml(message, isHtml, board.htmlEncode, board.acceptedTags);
    var attrs := Attributes(board, targetBlankOverride, useNoFollow);
    var (c1, rules) := Populate(cache, [isBBCode, targetBlankOverride, useNoFollow],
                                CreateBBCodeRules(board, isBBCode, targetBlankOverride, useNoFollow, true) + AutoLinkRules(attrs));
    (c1, repaired, rules)
  }

  /** `FormatMessage` as written: the nofollow decision takes the age as last
      edit minus now. `now` is the clock. */
  function FormatMessage(cache: Cache, board: Board, message: string, isHtml: bool, isBBCode: bool,
                         targetBlankOverride: bool, lastEdited: int, now: int): (r: (Cache, string, seq<Rule>))
    ensures lastEdited <= now ==>
      r == FormatWith(cache, board, message, isHtml, isBBCode, targetBlankOverride, board.useNoFollowLinks)
  {
    FormatWith(cache, board, message, isHtml, isBBCode, targetBlankOverride,
               NoFollowAsWritten(board.useNoFollowLinks, board.disableNoFollowLinksAfterDay, lastEdited, now))
  }

  /** `FormatMessage` with the intended nofollow decision. */
  function FormatMessageIntended(cache: Cache, board: Board, message: string, isHtml: bool, isBBCode: bool,
                                 targetBlankOverride: bool, lastEdited: int, now: int): (Cache, string, seq<Rule>)
  {
    FormatWith(cache, board, message, isHtml, isBBCode, targetBlankOverride,
               NoFollow(board.useNoFollowLinks, board.disableNoFollowLinksAfterDay, lastEdited, now))
  }

  /** A fresh engine runs the whole BBCode rule set and the automatic link
      rules, whose links carry the same attributes as the BBCode links. */
  lemma FormatWithFresh(cache: Cache, board: Board, message: string, isHtml: bool, isBBCode: bool,
                        targetBlankOverride: bool, useNoFollow: bool)
    requires Engine(cache, [isBBCode, targetBlankOverride, useNoFollow]) == []
    ensures var rules := FormatWith(cache, board, message, isHtml, isBBCode, targetBlankOverride, useNoFollow).2;
      (forall r :: r in CreateBBCodeRules(board, isBBCode, targetBlankOverride, useNoFollow, true) ==> r in rules)
      && HasKind(rules, AutoEmail)
      && forall r :: r in rules && r.kind.AutoUrl? ==>
           r.rank == 10 && r.kind.attrs.nofollow == (if useNoFollow then NoFollowRel else "")
  {
    var attrs := Attributes(board, targetBlankOverride, useNoFollow);
    var base := CreateBBCodeRules(board, isBBCode, targetBlankOverride, useNoFollow, true);
    var auto := AutoLinkRules(attrs);
    var rules := FormatWith(cache, board, message, isHtml, isBBCode, targetBlankOverride, useNoFollow).2;
    assert rules == base + auto;
    AutoLinkFacts(attrs);
    CreateShape(board, isBBCode, targetBlankOverride, useNoFollow, true);
    forall r | r in rules && r.kind.AutoUrl?
      ensures r.rank == 10 && r.kind.attrs.nofollow == (if useNoFollow then NoFollowRel else "")
    {
      assert r !in base;
    }
  }

  /** As written, a fresh engine of `FormatMessage` for a message edited in the
      past keeps the board's nofollow setting on all its links: the BBCode rule
      set for that setting and the automatic link rules. */
  lemma FormatMessageFresh(cache: Cache, board: Board, message: string, isHtml: bool, isBBCode: bool,
                           targetBlankOverride: bool, lastEdited: int, now: int)
    requires lastEdited <= now
    requires Engine(cache, [isBBCode, targetBlankOverride, board.useNoFollowLinks]) == []
    ensures var rules := FormatMessage(cache, board, message, isHtml, isBBCode, targetBlankOverride, lastEdited, now).2;
      (forall r :: r in CreateBBCodeRules(board, isBBCode, targetBlankOverride, board.useNoFollowLinks, true) ==> r in rules)
      && HasKind(rules, AutoEmail)
      && forall r :: r in rules && r.kind.AutoUrl? ==>
           r.rank == 10 && r.kind.attrs.nofollow == (if board.useNoFollowLinks then NoFollowRel else "")
  {
    NoFollowAsWrittenNeverAges(board.useNoFollowLinks, board.disableNoFollowLinksAfterDay, lastEdited, now);
    FormatWithFresh(cache, board, message, isHtml, isBBCode, targetBlankOverride, board.useNoFollowLinks);
  }

  /** With the intended decision, a fresh engine carries nofollow on its
      links exactly when the message has not aged past the board's limit. */
  lemma FormatMessageIntendedFresh(cache: Cache, board: Board, message: string, isHtml: bool, isBBCode: bool,
                                   targetBlankOverride: bool, lastEdited: int, now: int)
    requires var useNoFollow := NoFollow(board.useNoFollowLinks, board.disableNoFollowLinksAfterDay, lastEdited, now);
      Engine(cache, [isBBCode, targetBlankOverride, useNoFollow]) == []
    ensures var useNoFollow := NoFollow(board.useNoFollowLinks, board.disableNoFollowLinksAfterDay, lastEdited, now);
      var rules := FormatMessageIntended(cache, board, message, isHtml, isBBCode, targetBlankOverride, lastEdited, now).2;
      (forall r :: r in CreateBBCodeRules(board, isBBCode, targetBlankOverride, useNoFollow, true) ==> r in rules)
      && HasKind(rules, AutoEmail)
      && forall r :: r in rules && r.kind.AutoUrl? ==>
           r.rank == 10 && r.kind.attrs.nofollow == (if useNoFollow then NoFollowRel else "")
  {
    var useNoFollow := NoFollow(board.useNoFollowLinks, board.disableNoFollowLinksAfterDay, lastEdited, now);
    FormatWithFresh(cache, board, message, isHtml, isBBCode, targetBlankOverride, useNoFollow);
  }

  lemma AutoLinkFacts(attrs: LinkAttributes)
    ensures Rule(AutoEmail, 10) in AutoLinkRules(attrs)
    ensures forall r :: r in AutoLinkRules(attrs) ==> r.rank == 10 && (r.kind.AutoUrl? ==> r.kind.attrs == attrs)
  {
  }

  /** `MakeHtml` and the formatter share their engines: after `MakeHtml` has
      populated the engine for a set of flags, formatting with the same flags
      and the board's nofollow setting runs that engine, which has no
      automatic link rule. */
  lemma SharedEngineWith(cache: Cache, board: Board, message: string, isHtml: bool, doFormatting: bool,
                         targetBlankOverride: bool)
    ensures var (c1, made) := MakeHtml(cache, board, doFormatting, targetBlankOverride);
      var formatted := FormatWith(c1, board, message, isHtml, doFormatting, targetBlankOverride, board.useNoFollowLinks).2;
      formatted == made
      && (Engine(cache, [doFormatting, targetBlankOverride, board.useNoFollowLinks]) == [] ==>
            !HasKind(formatted, AutoEmail))
  {
    var key := [doFormatting, targetBlankOverride, board.useNoFollowLinks];
    MakeHtmlOnce(cache, board, doFormatting, targetBlankOverride);
    if Engine(cache, key) == [] {
      CreateShape(board, doFormatting, targetBlankOverride, board.useNoFollowLinks, true);
    }
  }

  /** As written, `FormatMessage` for any message edited in the past runs the
      engine `MakeHtml` populated for the same flags. */
  lemma SharedEngine(cache: Cache, board: Board, message: string, isHtml: bool, doFormatting: bool,
                     targetBlankOverride: bool, lastEdited: int, now: int)
    requires lastEdited <= now
    ensures var (c1, made) := MakeHtml(cache, board, doFormatting, targetBlankOverride);
      var formatted := FormatMessage(c1, board, message, isHtml, doFormatting, targetBlankOverride, lastEdited, now).2;
      formatted == made
      && (Engine(cache, [doFormatting, targetBlankOverride, board.useNoFollowLinks]) == [] ==>
            !HasKind(formatted, AutoEmail))
  {
    NoFollowAsWrittenNeverAges(board.useNoFollowLinks, board.disableNoFollowLinksAfterDay, lastEdited, now);
    SharedEngineWith(cache, board, message, isHtml, doFormatting, targetBlankOverride);
  }

  /** With the intended decision the engine is shared only while nofollow is
      not aged away. */
  lemma SharedEngineIntended(cache: Cache, board: Board, message: string, isHtml: bool, doFormatting: bool,
                             targetBlankOverride: bool, lastEdited: int, now: int)
    requires NoFollow(board.useNoFollowLinks, board.disableNoFollowLinksAfterDay, lastEdited, now) == board.useNoFollowLinks
    ensures var (c1, made) := MakeHtml(cache, board, doFormatting, targetBlankOverride);
      var formatted := FormatMessageIntended(c1, board, message, isHtml, doFormatting, targetBlankOverride, lastEdited, now).2;
      formatted == made
      && (Engine(cache, [doFormatting, targetBlankOverride, board.useNoFollowLinks]) == [] ==>
            !HasKind(formatted, AutoEmail))
  {
    SharedEngineWith(cache, board, message, isHtml, doFormatting, targetBlankOverride);
  }
}
