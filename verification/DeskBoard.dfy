/** The desk board: parsing what was stored or sent, and changing one card (src/desk-board.ts). */
module DeskBoard {
  import opened Collections
  import opened Wrappers
  import opened Utf16

  const DESK_MAX_CARDS := 30
  const TITLE_MAX := 160
  const BODY_MAX := 800
  const HREF_MAX := 2048

  /** A JSON value where a string is wanted. */
  datatype Value = Str(text: Text) | NotString

  datatype CardStatus = Pending | Approved | Rejected

  datatype StatusValue = Known(status: CardStatus) | UnknownStatus

  /** A card as it comes in: the seven fields that are looked at, each possibly missing. */
  datatype RawCard =
    | NotACard
    | RawCard(id: Option<Value>, title: Option<Value>, body: Option<Value>, href: Option<Value>,
              decisionHref: Option<Value>, status: Option<StatusValue>, updatedAt: Option<Value>)

  datatype RawBoard = NotABoard | RawBoard(cards: Option<seq<RawCard>>, updatedAt: Option<Value>)

  datatype CardId = CardId(text: Text)

  datatype Card = Card(id: CardId, title: Text, body: Text, href: Option<Text>, decisionHref: Option<Text>,
                       status: CardStatus, updatedAt: Text)

  datatype Board = Board(cards: seq<Card>, updatedAt: Text)

  datatype DeskError = InvalidCard | InvalidCardId

  // ---------------------------------------------------------------- fields

  function TextOr(v: Option<Value>, otherwise: Text): Text { if v.Some? && v.value.Str? then v.value.text else otherwise }

  predicate IdChar(c: CodeUnit) {
    48 <= c <= 57 || 65 <= c <= 90 || 97 <= c <= 122 || c == 46 || c == 95 || c == 58 || c == 45
  }

  predicate IdOk(t: Text) { 1 <= |t| <= 80 && forall i :: 0 <= i < |t| ==> IdChar(t[i]) }

  function Lower(c: CodeUnit): CodeUnit { if 65 <= c <= 90 then c + 32 else c }

  /** "/?action=", in any case. */
  const ACTION_LINK: Text := [47, 63, 97, 99, 116, 105, 111, 110, 61]

  predicate IsActionLink(t: Text) { |t| >= |ACTION_LINK| && forall i :: 0 <= i < |ACTION_LINK| ==> Lower(t[i]) == ACTION_LINK[i] }

  /** A path on this origin: one slash, and no second slash or backslash after it. */
  predicate SameOrigin(t: Text) { t != [] && t[0] == 47 && (|t| == 1 || (t[1] != 47 && t[1] != 92)) }

  /** `remote` stands for the URL check: https, no credentials, one of three hosts. */
  function CleanRemoteHref(v: Option<Value>, remote: Text -> bool): Option<Text> {
    var href := Trim(TextOr(v, []));
    if href == [] || |href| > HREF_MAX || !remote(href) then None else Some(href)
  }

  function CleanDecisionHref(v: Option<Value>, remote: Text -> bool): Option<Text> {
    var href := Trim(TextOr(v, []));
    if href == [] || |href| > HREF_MAX then None
    else if SameOrigin(href) then (if IsActionLink(href) then None else Some(href))
    else CleanRemoteHref(Some(Str(href)), remote)
  }

  function ParseDeskCard(raw: RawCard, now: Text, remote: Text -> bool): Option<Card> {
    if raw.NotACard? then None
    else
      var id, title := Trim(TextOr(raw.id, [])), Trim(TextOr(raw.title, []));
      if !IdOk(id) || title == [] then None
      else
        Some(Card(CardId(id), Slice(title, TITLE_MAX), Shorten(TextOr(raw.body, []), BODY_MAX),
                  CleanRemoteHref(raw.href, remote), CleanDecisionHref(raw.decisionHref, remote),
                  if raw.status.Some? && raw.status.value.Known? then raw.status.value.status else Pending,
                  TextOr(raw.updatedAt, now)))
  }

  /** One to eighty digits, letters of either case, and the four signs. */
  ghost predicate Identifier(t: Text) {
    && 1 <= |t| <= 80
    && forall i :: 0 <= i < |t| ==>
         && t[i] < 128
         && var c := t[i] as char;
            '0' <= c <= '9' || 'A' <= c <= 'Z' || 'a' <= c <= 'z' || c == '.' || c == '_' || c == ':' || c == '-'
  }

  lemma IdentifierExactly(t: Text)
    ensures IdOk(t) <==> Identifier(t)
  {
  }

  /** The text that was sent, trimmed, as far as one was sent. */
  ghost predicate Sent(v: Option<Value>, t: Text) { v.Some? && v.value.Str? && t == Trim(v.value.text) }

  /** The letter, small or capital. */
  ghost predicate Letter(c: CodeUnit, small: char)
    requires small as int >= 32
  {
    c == small as int || c == small as int - 32
  }

  /** The link of an action starts with a slash, a question mark, the word action and an equals sign. */
  ghost predicate StartsAction(t: Text) {
    && |t| >= 9 && t[0] == '/' as int && t[1] == '?' as int && t[8] == '=' as int
    && Letter(t[2], 'a') && Letter(t[3], 'c') && Letter(t[4], 't') && Letter(t[5], 'i') && Letter(t[6], 'o') && Letter(t[7], 'n')
  }

  /** A path on this origin: a slash, not followed by another or a backslash, and not the link of an action. */
  ghost predicate LocalPath(t: Text) {
    && |t| >= 1 && t[0] == 47 && (|t| == 1 || (t[1] != 47 && t[1] != 92))
    && !StartsAction(t)
  }

  ghost predicate LeadsOff(t: Text) { |t| >= 1 && t[0] == 47 && (|t| == 1 || (t[1] != 47 && t[1] != 92)) }

  lemma ActionLinkExactly(t: Text)
    ensures LocalPath(t) <==> SameOrigin(t) && !IsActionLink(t)
  {
    if |t| >= 9 {
      assert StartsAction(t) <==> forall i :: 0 <= i < 9 ==> Lower(t[i]) == ACTION_LINK[i];
    }
  }

  /**
   What a card is made of.  It needs an id of the allowed characters and a title; a link is kept exactly if it
   was sent, fits and passes the check, a decision link also as a path here that is no action; the status is
   the one sent or else pending, the time the one sent or else now.
   */
  lemma CardExactly(raw: RawCard, now: Text, remote: Text -> bool)
    ensures ParseDeskCard(raw, now, remote).Some? <==>
              raw.RawCard? && (exists id :: Sent(raw.id, id) && Identifier(id)) && exists title :: Sent(raw.title, title) && title != []
    ensures ParseDeskCard(raw, now, remote).Some? ==>
              var c := ParseDeskCard(raw, now, remote).value;
              && Sent(raw.id, c.id.text)
              && (forall t :: Sent(raw.title, t) ==> c.title == if |t| <= 160 then t else t[..160])
              && (forall t :: Sent(raw.body, t) ==> c.body == if |t| <= 800 then t else t[..800])
              && (!(raw.body.Some? && raw.body.value.Str?) ==> c.body == [])
              && (forall t :: c.href == Some(t) <==> Sent(raw.href, t) && 1 <= |t| <= 2048 && remote(t))
              && (forall t :: c.decisionHref == Some(t) <==>
                    Sent(raw.decisionHref, t) && 1 <= |t| <= 2048 && if LeadsOff(t) then LocalPath(t) else remote(t))
              && c.status == (if raw.status == Some(Known(Approved)) then Approved
                              else if raw.status == Some(Known(Rejected)) then Rejected else Pending)
              && c.updatedAt == (if raw.updatedAt.Some? && raw.updatedAt.value.Str? then raw.updatedAt.value.text else now)
  {
    assert Trim([]) == [];
    if raw.RawCard? {
      IdAndTitleExactly(raw);
      DecisionHrefExactly(raw.decisionHref, remote);
    }
  }

  lemma IdAndTitleExactly(raw: RawCard)
    requires raw.RawCard?
    ensures (exists id :: Sent(raw.id, id) && Identifier(id)) <==> IdOk(Trim(TextOr(raw.id, [])))
    ensures (exists title :: Sent(raw.title, title) && title != []) <==> Trim(TextOr(raw.title, [])) != []
  {
    assert Trim([]) == [];
    IdentifierExactly(Trim(TextOr(raw.id, [])));
    if IdOk(Trim(TextOr(raw.id, []))) { assert Sent(raw.id, Trim(TextOr(raw.id, []))); }
    if Trim(TextOr(raw.title, [])) != [] { assert Sent(raw.title, Trim(TextOr(raw.title, []))); }
  }

  lemma DecisionHrefExactly(v: Option<Value>, remote: Text -> bool)
    ensures forall t :: CleanDecisionHref(v, remote) == Some(t) <==>
              Sent(v, t) && 1 <= |t| <= 2048 && if LeadsOff(t) then LocalPath(t) else remote(t)
  {
    assert Trim([]) == [];
    var href := Trim(TextOr(v, []));
    ActionLinkExactly(href);
    TrimIsTrimmed(TextOr(v, []));
    TrimmedStays(href);
  }

  // ---------------------------------------------------------------- parsing what was parsed

  function Nullable(t: Option<Text>): Value { if t.Some? then Str(t.value) else NotString }

  function AsRawCard(c: Card): RawCard {
    RawCard(Some(Str(c.id.text)), Some(Str(c.title)), Some(Str(c.body)), Some(Nullable(c.href)),
            Some(Nullable(c.decisionHref)), Some(Known(c.status)), Some(Str(c.updatedAt)))
  }

  ghost predicate GoodCard(c: Card, remote: Text -> bool) {
    && IdOk(c.id.text)
    && c.title != [] && |c.title| <= TITLE_MAX && !IsSpace(c.title[0])
    && |c.body| <= BODY_MAX && (c.body == [] || !IsSpace(c.body[0]))
    && (c.href.Some? ==> CleanRemoteHref(Some(Str(c.href.value)), remote) == c.href)
    && (c.decisionHref.Some? ==> CleanDecisionHref(Some(Str(c.decisionHref.value)), remote) == c.decisionHref)
  }

  function Settled(c: Card): Card { c.(title := Trim(c.title), body := Trim(c.body)) }

  lemma IdsAreTrimmed(t: Text)
    requires IdOk(t)
    ensures Trim(t) == t
  {
    TrimmedStays(t);
    assert IdChar(t[0]) && IdChar(t[|t| - 1]);
  }

  lemma LinksStayClean(v: Option<Value>, remote: Text -> bool)
    ensures var link := CleanRemoteHref(v, remote); link.Some? ==> CleanRemoteHref(Some(Str(link.value)), remote) == link
    ensures var link := CleanDecisionHref(v, remote); link.Some? ==> CleanDecisionHref(Some(Str(link.value)), remote) == link
  {
    var href := Trim(TextOr(v, []));
    TrimIsTrimmed(TextOr(v, []));
    TrimmedStays(href);
  }

  lemma ParsedIsGood(raw: RawCard, now: Text, remote: Text -> bool)
    ensures ParseDeskCard(raw, now, remote).Some? ==> GoodCard(ParseDeskCard(raw, now, remote).value, remote)
  {
    if raw.RawCard? {
      TrimIsTrimmed(TextOr(raw.title, []));
      TrimIsTrimmed(TextOr(raw.body, []));
      LinksStayClean(raw.href, remote);
      LinksStayClean(raw.decisionHref, remote);
    }
  }

  /** A good card read back keeps everything but spaces left at the end of its title and body. */
  lemma GoodReparses(c: Card, now: Text, remote: Text -> bool)
    requires GoodCard(c, remote)
    ensures ParseDeskCard(AsRawCard(c), now, remote) == Some(Settled(c))
    ensures GoodCard(Settled(c), remote) && Settled(Settled(c)) == Settled(c)
    ensures Settled(c) == c <==> Trimmed(c.title) && Trimmed(c.body)
  {
    IdsAreTrimmed(c.id.text);
    TrimIsTrimmed(c.title);
    TrimIsTrimmed(c.body);
    LeadingStays(c.title);
    TrimmedStays(Trim(c.title));
    TrimmedStays(Trim(c.body));
    TrimmedStays(c.title);
    TrimmedStays(c.body);
    LinksStayClean(None, remote);
  }

  /** Reading a card back once settles it: a second reading changes nothing more. */
  lemma CardSettlesOnSecondReading(raw: RawCard, now: Text, remote: Text -> bool)
    requires ParseDeskCard(raw, now, remote).Some?
    ensures var once := ParseDeskCard(raw, now, remote).value;
            var twice := ParseDeskCard(AsRawCard(once), now, remote);
            && twice.Some? && ParseDeskCard(AsRawCard(twice.value), now, remote) == twice
  {
    ParsedIsGood(raw, now, remote);
    var once := ParseDeskCard(raw, now, remote).value;
    GoodReparses(once, now, remote);
    GoodReparses(Settled(once), now, remote);
  }

  /** The cut of a field falls outside its text, or just after a character that is no space. */
  predicate CutIsClean(t: Text, n: nat) { |Trim(t)| <= n || n == 0 || !IsSpace(Trim(t)[n - 1]) }

  /** The first reading is already settled exactly when neither the title nor the body was cut just after a space. */
  lemma CardSettledAtOnce(raw: RawCard, now: Text, remote: Text -> bool)
    requires ParseDeskCard(raw, now, remote).Some?
    ensures var once := ParseDeskCard(raw, now, remote);
            ParseDeskCard(AsRawCard(once.value), now, remote) == once <==>
              CutIsClean(TextOr(raw.title, []), TITLE_MAX) && CutIsClean(TextOr(raw.body, []), BODY_MAX)
  {
    ParsedIsGood(raw, now, remote);
    GoodReparses(ParseDeskCard(raw, now, remote).value, now, remote);
    ShortenOnceIsEnough(TextOr(raw.title, []), TITLE_MAX);
    ShortenOnceIsEnough(TextOr(raw.body, []), BODY_MAX);
    ShortenSettles(TextOr(raw.title, []), TITLE_MAX);
    ShortenSettles(TextOr(raw.body, []), BODY_MAX);
  }

  // ---------------------------------------------------------------- boards

  function EmptyDeskBoard(now: Text): Board { Board([], now) }

  function ValidCards(raws: seq<RawCard>, now: Text, remote: Text -> bool): seq<Card> {
    if raws == [] then []
    else
      var init, last := ValidCards(raws[..|raws| - 1], now, remote), ParseDeskCard(raws[|raws| - 1], now, remote);
      if last.Some? then init + [last.value] else init
  }

  function Take(cards: seq<Card>, n: nat): seq<Card> { if |cards| <= n then cards else cards[..n] }

  /** The first thirty valid cards of the list; anything else is an empty board. */
  function BoardOf(raw: RawBoard, now: Text, remote: Text -> bool): Board {
    if raw.NotABoard? then EmptyDeskBoard(now)
    else Board(if raw.cards.Some? then Take(ValidCards(raw.cards.value, now, remote), DESK_MAX_CARDS) else [], TextOr(raw.updatedAt, now))
  }

  lemma {:induction false} ValidCardsGrow(raws: seq<RawCard>, k: nat, now: Text, remote: Text -> bool)
    requires k <= |raws|
    ensures ValidCards(raws[..k], now, remote) <= ValidCards(raws, now, remote)
    decreases |raws| - k
  {
    if k == |raws| {
      assert raws[..k] == raws;
    } else {
      assert raws[..k + 1][..k] == raws[..k];
      ValidCardsGrow(raws, k + 1, now, remote);
    }
  }

  lemma OneMoreCard(raws: seq<RawCard>, k: nat, now: Text, remote: Text -> bool)
    requires k < |raws|
    ensures var sofar, card := ValidCards(raws[..k], now, remote), ParseDeskCard(raws[k], now, remote);
            ValidCards(raws[..k + 1], now, remote) == if card.Some? then sofar + [card.value] else sofar
  {
    assert raws[..k + 1][..k] == raws[..k];
  }

  /** Reading can stop at the end of the list, or once there are thirty cards. */
  lemma EnoughRead(raws: seq<RawCard>, k: nat, now: Text, remote: Text -> bool)
    requires k <= |raws| && |ValidCards(raws[..k], now, remote)| <= DESK_MAX_CARDS
    requires k == |raws| || |ValidCards(raws[..k], now, remote)| == DESK_MAX_CARDS
    ensures Take(ValidCards(raws, now, remote), DESK_MAX_CARDS) == ValidCards(raws[..k], now, remote)
  {
    ValidCardsGrow(raws, k, now, remote);
    if k == |raws| { assert raws[..k] == raws; }
  }

  method ParseDeskBoard(raw: RawBoard, now: Text, remote: Text -> bool) returns (board: Board)
    ensures board == BoardOf(raw, now, remote)
  {
    if raw.NotABoard? { return EmptyDeskBoard(now); }
    var cardsIn := if raw.cards.Some? then raw.cards.value else [];
    var cards := [];
    var k := 0;
    while k < |cardsIn|
      invariant k <= |cardsIn|
      invariant cards == ValidCards(cardsIn[..k], now, remote) && |cards| < DESK_MAX_CARDS
    {
      OneMoreCard(cardsIn, k, now, remote);
      var card := ParseDeskCard(cardsIn[k], now, remote);
      if card.Some? { cards := cards + [card.value]; }
      k := k + 1;
      if |cards| >= DESK_MAX_CARDS { break; }
    }
    EnoughRead(cardsIn, k, now, remote);
    return Board(cards, TextOr(raw.updatedAt, now));
  }

  ghost predicate Ascending(at: seq<nat>, n: nat) {
    && (forall k, l :: 0 <= k < l < |at| ==> at[k] < at[l])
    && (forall k :: 0 <= k < |at| ==> at[k] < n)
  }

  ghost predicate ParsesExactly(at: set<nat>, raws: seq<RawCard>, now: Text, remote: Text -> bool) {
    forall i :: 0 <= i < |raws| ==> (i in at <==> ParseDeskCard(raws[i], now, remote).Some?)
  }

  /** The indices of the cards that parse, in order. */
  ghost predicate Parsing(at: seq<nat>, raws: seq<RawCard>, now: Text, remote: Text -> bool) {
    Ascending(at, |raws|) && ParsesExactly(Elements(at), raws, now, remote)
  }

  lemma AscendingOn(at: seq<nat>, n: nat)
    requires Ascending(at, n)
    ensures Ascending(at, n + 1) && Ascending(at + [n], n + 1)
    ensures Elements(at + [n]) == Elements(at) + {n} && n !in Elements(at)
  {
  }

  lemma ParsesOn(at: set<nat>, raws: seq<RawCard>, last: RawCard, now: Text, remote: Text -> bool)
    requires ParsesExactly(at, raws, now, remote) && |raws| !in at
    ensures ParseDeskCard(last, now, remote).None? ==> ParsesExactly(at, raws + [last], now, remote)
    ensures ParseDeskCard(last, now, remote).Some? ==> ParsesExactly(at + {|raws|}, raws + [last], now, remote)
  {
    var all := raws + [last];
    forall i | 0 <= i < |raws| ensures all[i] == raws[i] {}
    assert all[|raws|] == last;
  }

  lemma ParsingOn(at: seq<nat>, raws: seq<RawCard>, last: RawCard, now: Text, remote: Text -> bool)
    requires Parsing(at, raws, now, remote)
    ensures ParseDeskCard(last, now, remote).None? ==> Parsing(at, raws + [last], now, remote)
    ensures ParseDeskCard(last, now, remote).Some? ==> Parsing(at + [|raws|], raws + [last], now, remote)
  {
    AscendingOn(at, |raws|);
    ParsesOn(Elements(at), raws, last, now, remote);
  }

  ghost predicate ParsedAt(cards: seq<Card>, at: seq<nat>, raws: seq<RawCard>, now: Text, remote: Text -> bool) {
    |cards| == |at| && forall k :: 0 <= k < |at| ==> at[k] < |raws| && Some(cards[k]) == ParseDeskCard(raws[at[k]], now, remote)
  }

  lemma {:induction false} ValidCardsAre(raws: seq<RawCard>, now: Text, remote: Text -> bool) returns (at: seq<nat>)
    ensures Parsing(at, raws, now, remote) && ParsedAt(ValidCards(raws, now, remote), at, raws, now, remote)
    decreases |raws|
  {
    if raws == [] { return []; }
    var init, last := raws[..|raws| - 1], raws[|raws| - 1];
    at := ValidCardsAre(init, now, remote);
    ParsingOn(at, init, last, now, remote);
    ParsedOn(ValidCards(init, now, remote), at, init, last, now, remote);
    assert init + [last] == raws;
    if ParseDeskCard(last, now, remote).Some? { at := at + [|init|]; }
  }

  lemma ParsedOn(cards: seq<Card>, at: seq<nat>, raws: seq<RawCard>, last: RawCard, now: Text, remote: Text -> bool)
    requires ParsedAt(cards, at, raws, now, remote)
    ensures ParsedAt(cards, at, raws + [last], now, remote)
    ensures ParseDeskCard(last, now, remote).Some? ==>
              ParsedAt(cards + [ParseDeskCard(last, now, remote).value], at + [|raws|], raws + [last], now, remote)
  {
    assert (raws + [last])[|raws|] == last;
  }

  /** A board is made of the first thirty cards that parse, in the order they came, and has the time that was sent or else now. */
  lemma BoardExactly(raws: seq<RawCard>, updatedAt: Option<Value>, now: Text, remote: Text -> bool) returns (at: seq<nat>)
    ensures Parsing(at, raws, now, remote)
    ensures var board := BoardOf(RawBoard(Some(raws), updatedAt), now, remote);
            && |board.cards| == (if |at| < 30 then |at| else 30)
            && (forall k :: 0 <= k < |board.cards| ==> Some(board.cards[k]) == ParseDeskCard(raws[at[k]], now, remote))
            && board.updatedAt == (if updatedAt.Some? && updatedAt.value.Str? then updatedAt.value.text else now)
  {
    at := ValidCardsAre(raws, now, remote);
  }

  ghost predicate DistinctIds(cards: seq<Card>) { forall i, j :: 0 <= i < j < |cards| ==> cards[i].id != cards[j].id }

  ghost predicate GoodCards(cards: seq<Card>, remote: Text -> bool) { forall i :: 0 <= i < |cards| ==> GoodCard(cards[i], remote) }

  /** A board as the program leaves it: at most thirty good cards, no two with the same id. */
  ghost predicate GoodBoard(b: Board, remote: Text -> bool) {
    |b.cards| <= 30 && DistinctIds(b.cards) && GoodCards(b.cards, remote)
  }

  function AsRawCards(cards: seq<Card>): seq<RawCard> {
    if cards == [] then [] else AsRawCards(cards[..|cards| - 1]) + [AsRawCard(cards[|cards| - 1])]
  }

  function AsRaw(b: Board): RawBoard { RawBoard(Some(AsRawCards(b.cards)), Some(Str(b.updatedAt))) }

  function SettledCards(cards: seq<Card>): seq<Card> {
    if cards == [] then [] else SettledCards(cards[..|cards| - 1]) + [Settled(cards[|cards| - 1])]
  }

  lemma {:induction false} SettledCardsAre(cards: seq<Card>)
    ensures |SettledCards(cards)| == |cards| && forall i :: 0 <= i < |cards| ==> SettledCards(cards)[i] == Settled(cards[i])
  {
    if cards != [] { SettledCardsAre(cards[..|cards| - 1]); }
  }

  lemma {:induction false} CardsReparse(cards: seq<Card>, now: Text, remote: Text -> bool)
    requires GoodCards(cards, remote)
    ensures ValidCards(AsRawCards(cards), now, remote) == SettledCards(cards)
  {
    if cards != [] {
      var init, last := cards[..|cards| - 1], cards[|cards| - 1];
      CardsReparse(init, now, remote);
      GoodReparses(last, now, remote);
      assert AsRawCards(cards)[..|AsRawCards(init)|] == AsRawCards(init);
    }
  }

  /** A good board read back is the same board with every card settled, and still good. */
  lemma BoardReparses(b: Board, now: Text, remote: Text -> bool)
    requires GoodBoard(b, remote)
    ensures BoardOf(AsRaw(b), now, remote) == Board(SettledCards(b.cards), b.updatedAt)
    ensures GoodBoard(BoardOf(AsRaw(b), now, remote), remote)
  {
    CardsReparse(b.cards, now, remote);
    SettledCardsAre(b.cards);
    forall i | 0 <= i < |b.cards| ensures GoodCard(Settled(b.cards[i]), remote) { GoodReparses(b.cards[i], now, remote); }
  }

  /** Reading a board back twice is reading it back once. */
  lemma BoardSettles(b: Board, now: Text, remote: Text -> bool)
    requires GoodBoard(b, remote)
    ensures var once := BoardOf(AsRaw(b), now, remote); BoardOf(AsRaw(once), now, remote) == once
  {
    BoardReparses(b, now, remote);
    var once := BoardOf(AsRaw(b), now, remote);
    BoardReparses(once, now, remote);
    SettledCardsAre(b.cards);
    SettledCardsAre(once.cards);
    forall i | 0 <= i < |once.cards| ensures Settled(once.cards[i]) == once.cards[i] {
      GoodReparses(b.cards[i], now, remote);
    }
    assert SettledCards(once.cards) == once.cards;
  }

  // ---------------------------------------------------------------- changing a card

  function Find(cards: seq<Card>, id: CardId): (r: Option<Card>)
    ensures r.Some? ==> r.value in cards && r.value.id == id
    ensures r.None? ==> forall c :: c in cards ==> c.id != id
  {
    if cards == [] then None else if cards[0].id == id then Some(cards[0]) else Find(cards[1..], id)
  }

  function Without(cards: seq<Card>, id: CardId): seq<Card> {
    if cards == [] then []
    else if cards[0].id == id then Without(cards[1..], id) else [cards[0]] + Without(cards[1..], id)
  }

  /** What was sent over what is there: a field that was sent replaces, one that was not is kept. */
  function MergeCard(existing: Option<Card>, raw: RawCard, now: Text): RawCard
    requires raw.RawCard?
  {
    var base := if existing.Some? then AsRawCard(existing.value) else RawCard(None, None, None, None, None, None, None);
    RawCard(if raw.id.Some? then raw.id else base.id,
            if raw.title.Some? then raw.title else base.title,
            if raw.body.Some? then raw.body else base.body,
            if raw.href.Some? then raw.href else base.href,
            if raw.decisionHref.Some? then raw.decisionHref else base.decisionHref,
            if raw.status.Some? then raw.status else base.status,
            Some(Str(now)))
  }

  function UpsertDeskCard(board: Board, raw: RawCard, now: Text, remote: Text -> bool): Result<Board, DeskError> {
    if raw.NotACard? then Err(InvalidCard)
    else
      var id := CardId(Trim(TextOr(raw.id, [])));
      var card := ParseDeskCard(MergeCard(Find(board.cards, id), raw, now), now, remote);
      if card.None? then Err(InvalidCard)
      else Ok(Board(Take([card.value] + Without(board.cards, card.value.id), DESK_MAX_CARDS), now))
  }

  function RemoveDeskCard(board: Board, incoming: Value, now: Text): Result<Board, DeskError> {
    var id := Trim(TextOr(Some(incoming), []));
    if !IdOk(id) then Err(InvalidCardId) else Ok(Board(Without(board.cards, CardId(id)), now))
  }

  lemma {:induction false} WithoutIs(cards: seq<Card>, id: CardId)
    ensures forall c :: c in Without(cards, id) <==> c in cards && c.id != id
    ensures |Without(cards, id)| <= |cards|
  {
    if cards != [] {
      WithoutIs(cards[1..], id);
      assert cards == [cards[0]] + cards[1..];
    }
  }

  lemma {:induction false} WithoutNothing(cards: seq<Card>, id: CardId)
    requires forall c :: c in cards ==> c.id != id
    ensures Without(cards, id) == cards
  {
    if cards != [] {
      WithoutNothing(cards[1..], id);
      assert cards == [cards[0]] + cards[1..];
    }
  }

  lemma {:induction false} WithoutDistinct(cards: seq<Card>, id: CardId)
    requires DistinctIds(cards)
    ensures DistinctIds(Without(cards, id))
  {
    if cards != [] {
      TailIsDistinct(cards);
      WithoutDistinct(cards[1..], id);
      WithoutIs(cards[1..], id);
      if cards[0].id != id { HeadIsDistinct(cards[0], Without(cards[1..], id)); }
    }
  }

  lemma TailIsDistinct(cards: seq<Card>)
    requires cards != [] && DistinctIds(cards)
    ensures DistinctIds(cards[1..]) && forall c :: c in cards[1..] ==> c.id != cards[0].id
  {
    var rest := cards[1..];
    forall i, j | 0 <= i < j < |rest| ensures rest[i].id != rest[j].id { assert cards[i + 1].id != cards[j + 1].id; }
  }

  lemma HeadIsDistinct(c: Card, rest: seq<Card>)
    requires DistinctIds(rest) && forall d :: d in rest ==> d.id != c.id
    ensures DistinctIds([c] + rest)
  {
    var all := [c] + rest;
    forall i, j | 0 <= i < j < |all| ensures all[i].id != all[j].id {
      assert all[j] == rest[j - 1] && rest[j - 1] in rest;
      if i > 0 { assert all[i] == rest[i - 1]; }
    }
  }

  lemma GoodMembers(cards: seq<Card>, remote: Text -> bool)
    ensures GoodCards(cards, remote) <==> forall c :: c in cards ==> GoodCard(c, remote)
  {
  }

  /**
   An upsert puts exactly one card of that id in front, leaves the others as they were and in order,
   and drops the last one when the board was full.
   */
  lemma UpsertPlaces(board: Board, raw: RawCard, now: Text, remote: Text -> bool)
    requires GoodBoard(board, remote) && UpsertDeskCard(board, raw, now, remote).Ok?
    ensures var after := UpsertDeskCard(board, raw, now, remote).value;
            && GoodBoard(after, remote)
            && after.cards != [] && after.updatedAt == now == after.cards[0].updatedAt
            && after.cards[0].id == CardId(Trim(TextOr(raw.id, [])))
            && after.cards[1..] == Take(Without(board.cards, after.cards[0].id), 29)
  {
    var id := CardId(Trim(TextOr(raw.id, [])));
    var existing := Find(board.cards, id);
    var merged := MergeCard(existing, raw, now);
    var card := ParseDeskCard(merged, now, remote).value;
    UpsertKeepsId(existing, raw, now, remote, board.cards);
    ParsedIsGood(merged, now, remote);
    WithoutIs(board.cards, card.id);
    WithoutDistinct(board.cards, card.id);
    var rest := Without(board.cards, card.id);
    HeadIsDistinct(card, rest);
    GoodMembers(board.cards, remote);
    GoodMembers([card] + rest, remote);
  }

  lemma UpsertKeepsId(existing: Option<Card>, raw: RawCard, now: Text, remote: Text -> bool, cards: seq<Card>)
    requires raw.RawCard? && existing == Find(cards, CardId(Trim(TextOr(raw.id, [])))) && GoodCards(cards, remote)
    requires ParseDeskCard(MergeCard(existing, raw, now), now, remote).Some?
    ensures ParseDeskCard(MergeCard(existing, raw, now), now, remote).value.id == CardId(Trim(TextOr(raw.id, [])))
  {
    GoodMembers(cards, remote);
    assert Trim([]) == [];
  }

  /**
   Sending only an id and a status changes the status and the time of the card there, and nothing else but
   that its title and body, read again, lose spaces left at the end by an earlier cut.
   */
  lemma UpsertKeepsFields(board: Board, c: Card, status: CardStatus, now: Text, remote: Text -> bool)
    requires GoodBoard(board, remote) && c in board.cards
    ensures var sent := RawCard(Some(Str(c.id.text)), None, None, None, None, Some(Known(status)), None);
            var after := UpsertDeskCard(board, sent, now, remote);
            && after.Ok? && after.value.cards != []
            && after.value.cards[0] == Settled(c).(status := status, updatedAt := now)
  {
    var sent := RawCard(Some(Str(c.id.text)), None, None, None, None, Some(Known(status)), None);
    GoodMembers(board.cards, remote);
    IdsAreTrimmed(c.id.text);
    var found := Find(board.cards, c.id);
    assert found == Some(c);
    GoodReparses(c, now, remote);
    assert MergeCard(found, sent, now) == AsRawCard(c.(status := status, updatedAt := now));
    GoodReparses(c.(status := status, updatedAt := now), now, remote);
  }

  /** A card sent with all its fields is stored as it parses, with the time of the write. */
  lemma UpsertStoresWhatWasSent(board: Board, raw: RawCard, now: Text, remote: Text -> bool)
    requires raw.RawCard? && raw.id.Some? && raw.title.Some? && raw.body.Some?
    requires raw.href.Some? && raw.decisionHref.Some? && raw.status.Some?
    ensures var card := ParseDeskCard(raw.(updatedAt := Some(Str(now))), now, remote);
            var after := UpsertDeskCard(board, raw, now, remote);
            && (after.Ok? <==> card.Some?)
            && (after.Ok? ==> after.value.cards != [] && after.value.cards[0] == card.value)
  {
    var id := CardId(Trim(TextOr(raw.id, [])));
    assert MergeCard(Find(board.cards, id), raw, now) == raw.(updatedAt := Some(Str(now)));
  }

  /** The card of that id on the board, or none if there is none. */
  ghost predicate CardAt(cards: seq<Card>, id: Text, e: Option<Card>) {
    if e.Some? then e.value in cards && e.value.id.text == id else forall c :: c in cards ==> c.id.text != id
  }

  /** A text field as it is after an upsert: the one sent, trimmed and cut, none if what was sent is no string, else the one there, trimmed. */
  ghost predicate TextTaken(after: Text, sent: Option<Value>, had: Text, most: nat) {
    if sent.None? then after == Trim(had)
    else if sent.value.NotString? then after == []
    else after == if |Trim(sent.value.text)| <= most then Trim(sent.value.text) else Trim(sent.value.text)[..most]
  }

  /** A link as it is after an upsert: the one sent if it passes the check, the one there if none was sent. */
  ghost predicate LinkTaken(after: Option<Text>, sent: Option<Value>, had: Option<Text>, remote: Text -> bool) {
    if sent.None? then after == had else forall t :: after == Some(t) <==> Sent(sent, t) && 1 <= |t| <= 2048 && remote(t)
  }

  ghost predicate DecisionLinkTaken(after: Option<Text>, sent: Option<Value>, had: Option<Text>, remote: Text -> bool) {
    if sent.None? then after == had
    else forall t :: after == Some(t) <==> Sent(sent, t) && 1 <= |t| <= 2048 && if LeadsOff(t) then LocalPath(t) else remote(t)
  }

  /** Field by field, what the first card is after an upsert of `raw` over the card `e`. */
  ghost predicate FieldsTaken(c: Card, raw: RawCard, e: Option<Card>, now: Text, remote: Text -> bool)
    requires raw.RawCard?
  {
    && Sent(raw.id, c.id.text) && c.updatedAt == now
    && TextTaken(c.title, raw.title, if e.Some? then e.value.title else [], 160)
    && TextTaken(c.body, raw.body, if e.Some? then e.value.body else [], 800)
    && LinkTaken(c.href, raw.href, if e.Some? then e.value.href else None, remote)
    && DecisionLinkTaken(c.decisionHref, raw.decisionHref, if e.Some? then e.value.decisionHref else None, remote)
    && c.status == (if raw.status == Some(Known(Approved)) then Approved
                    else if raw.status == Some(Known(Rejected)) then Rejected
                    else if raw.status.Some? || e.None? then Pending else e.value.status)
  }

  lemma TextIsTaken(sent: Option<Value>, had: Text, most: nat)
    requires |had| <= most
    ensures TextTaken(Shorten(TextOr(if sent.Some? then sent else Some(Str(had)), []), most), sent, had, most)
    ensures TextTaken(Shorten(TextOr(sent, []), most), sent, [], most)
  {
    assert Trim([]) == [];
    TrimIsTrimmed(had);
  }

  lemma LinkIsTaken(sent: Option<Value>, had: Option<Text>, remote: Text -> bool)
    requires had.Some? ==> CleanRemoteHref(Some(Str(had.value)), remote) == had
    ensures LinkTaken(CleanRemoteHref(if sent.Some? then sent else Some(Nullable(had)), remote), sent, had, remote)
    ensures LinkTaken(CleanRemoteHref(sent, remote), sent, None, remote)
  {
    assert Trim([]) == [];
  }

  lemma DecisionLinkIsTaken(sent: Option<Value>, had: Option<Text>, remote: Text -> bool)
    requires had.Some? ==> CleanDecisionHref(Some(Str(had.value)), remote) == had
    ensures DecisionLinkTaken(CleanDecisionHref(if sent.Some? then sent else Some(Nullable(had)), remote), sent, had, remote)
    ensures DecisionLinkTaken(CleanDecisionHref(sent, remote), sent, None, remote)
  {
    assert Trim([]) == [];
    DecisionHrefExactly(sent, remote);
  }

  lemma MergedTitle(e: Option<Card>, raw: RawCard, now: Text)
    requires raw.RawCard? && (e.Some? ==> e.value.title != [] && |e.value.title| <= 160 && !IsSpace(e.value.title[0]))
    ensures var title := TextOr(MergeCard(e, raw, now).title, []);
            && (Trim(title) != [] <==> if raw.title.Some? then Trim(TextOr(raw.title, [])) != [] else e.Some?)
            && TextTaken(Shorten(title, 160), raw.title, if e.Some? then e.value.title else [], 160)
  {
    assert Trim([]) == [];
    TextIsTaken(raw.title, if e.Some? then e.value.title else [], 160);
    if e.Some? { LeadingStays(e.value.title); }
  }

  lemma MergedBody(e: Option<Card>, raw: RawCard, now: Text)
    requires raw.RawCard? && (e.Some? ==> |e.value.body| <= 800)
    ensures TextTaken(Shorten(TextOr(MergeCard(e, raw, now).body, []), 800), raw.body, if e.Some? then e.value.body else [], 800)
  {
    TextIsTaken(raw.body, if e.Some? then e.value.body else [], 800);
  }

  lemma MergedLinks(e: Option<Card>, raw: RawCard, now: Text, remote: Text -> bool)
    requires raw.RawCard? && (e.Some? ==> GoodCard(e.value, remote))
    ensures LinkTaken(CleanRemoteHref(MergeCard(e, raw, now).href, remote), raw.href, if e.Some? then e.value.href else None, remote)
    ensures DecisionLinkTaken(CleanDecisionHref(MergeCard(e, raw, now).decisionHref, remote), raw.decisionHref,
                              if e.Some? then e.value.decisionHref else None, remote)
  {
    LinkIsTaken(raw.href, if e.Some? then e.value.href else None, remote);
    DecisionLinkIsTaken(raw.decisionHref, if e.Some? then e.value.decisionHref else None, remote);
  }

  /** What a merged card with an allowed id parses to, if it has a title. */
  lemma MergedParses(merged: RawCard, now: Text, remote: Text -> bool)
    requires merged.RawCard? && IdOk(Trim(TextOr(merged.id, [])))
    ensures var c := ParseDeskCard(merged, now, remote);
            && (c.Some? <==> Trim(TextOr(merged.title, [])) != [])
            && (c.Some? ==>
                  && c.value.id.text == Trim(TextOr(merged.id, []))
                  && c.value.title == Shorten(TextOr(merged.title, []), 160) && c.value.body == Shorten(TextOr(merged.body, []), 800)
                  && c.value.href == CleanRemoteHref(merged.href, remote)
                  && c.value.decisionHref == CleanDecisionHref(merged.decisionHref, remote)
                  && c.value.status == (if merged.status.Some? && merged.status.value.Known? then merged.status.value.status else Pending)
                  && c.value.updatedAt == TextOr(merged.updatedAt, now))
  {
  }

  lemma MergedIsTaken(e: Option<Card>, raw: RawCard, now: Text, remote: Text -> bool)
    requires raw.RawCard? && IdOk(Trim(TextOr(raw.id, []))) && (e.Some? ==> GoodCard(e.value, remote))
    ensures var c := ParseDeskCard(MergeCard(e, raw, now), now, remote);
            && (c.Some? <==> if raw.title.Some? then Trim(TextOr(raw.title, [])) != [] else e.Some?)
            && (c.Some? ==> FieldsTaken(c.value, raw, e, now, remote))
  {
    var merged := MergeCard(e, raw, now);
    assert raw.id.Some? by { assert Trim([]) == []; }
    MergedParses(merged, now, remote);
    MergedTitle(e, raw, now);
    MergedBody(e, raw, now);
    MergedLinks(e, raw, now, remote);
  }

  lemma FoundIs(cards: seq<Card>, id: Text, e: Option<Card>)
    requires DistinctIds(cards) && CardAt(cards, id, e)
    ensures Find(cards, CardId(id)) == e
  {
    var found := Find(cards, CardId(id));
    if e.Some? {
      var i :| 0 <= i < |cards| && cards[i] == e.value;
      assert e.value.id == CardId(id);
      var j :| 0 <= j < |cards| && cards[j] == found.value;
      assert cards[i].id == cards[j].id;
    }
  }

  /**
   An upsert needs an allowed id, and a title that is sent or there already.  Each field that was sent is taken,
   each that was not is kept from the card of that id, and a new card has the defaults.
   */
  lemma UpsertTakesOrKeeps(board: Board, raw: RawCard, e: Option<Card>, now: Text, remote: Text -> bool)
    requires GoodBoard(board, remote)
    requires raw.RawCard? ==> CardAt(board.cards, Trim(TextOr(raw.id, [])), e)
    ensures var after := UpsertDeskCard(board, raw, now, remote);
            && (after.Ok? <==> raw.RawCard? && (exists id :: Sent(raw.id, id) && Identifier(id))
                               && if raw.title.Some? then (exists title :: Sent(raw.title, title) && title != []) else e.Some?)
            && (after.Err? ==> after.error == InvalidCard)
            && (after.Ok? ==> after.value.cards != [] && FieldsTaken(after.value.cards[0], raw, e, now, remote))
  {
    if raw.RawCard? {
      var id := Trim(TextOr(raw.id, []));
      FoundIs(board.cards, id, e);
      GoodMembers(board.cards, remote);
      IdAndTitleExactly(raw);
      if IdOk(id) {
        MergedIsTaken(e, raw, now, remote);
      } else {
        BadIdIsRefused(e, raw, now, remote);
      }
    }
  }

  lemma BadIdIsRefused(e: Option<Card>, raw: RawCard, now: Text, remote: Text -> bool)
    requires raw.RawCard? && !IdOk(Trim(TextOr(raw.id, [])))
    requires e.Some? ==> GoodCard(e.value, remote) && e.value.id.text == Trim(TextOr(raw.id, []))
    ensures ParseDeskCard(MergeCard(e, raw, now), now, remote).None?
  {
  }

  /** The cards with the one at `k` taken out. */
  ghost predicate TakenOut(cards: seq<Card>, after: seq<Card>, k: nat) {
    k < |cards| && after == cards[..k] + cards[k + 1..]
  }

  lemma TakenFurther(c: Card, cards: seq<Card>, after: seq<Card>, k: nat)
    requires TakenOut(cards, after, k)
    ensures TakenOut([c] + cards, [c] + after, k + 1)
  {
    assert ([c] + cards)[..k + 1] == [c] + cards[..k];
    assert ([c] + cards)[k + 2..] == cards[k + 1..];
  }

  lemma {:induction false} WithoutTakesOne(cards: seq<Card>, id: CardId) returns (k: nat)
    requires DistinctIds(cards) && exists c :: c in cards && c.id == id
    ensures TakenOut(cards, Without(cards, id), k) && cards[k].id == id
  {
    TailIsDistinct(cards);
    if cards[0].id == id {
      WithoutNothing(cards[1..], id);
      k := 0;
    } else {
      var c :| c in cards && c.id == id;
      assert c in cards[1..];
      var n := WithoutTakesOne(cards[1..], id);
      TakenFurther(cards[0], cards[1..], Without(cards[1..], id), n);
      assert cards == [cards[0]] + cards[1..];
      k := n + 1;
    }
  }

  /** A removal takes out the one card of that id and leaves the others in order; with no such card nothing changes but the time. */
  lemma RemovePlaces(board: Board, incoming: Value, now: Text, remote: Text -> bool)
    requires GoodBoard(board, remote) && RemoveDeskCard(board, incoming, now).Ok?
    ensures var id, after := CardId(Trim(TextOr(Some(incoming), []))), RemoveDeskCard(board, incoming, now).value;
            && GoodBoard(after, remote) && after.updatedAt == now
            && (forall c :: c in after.cards <==> c in board.cards && c.id != id)
            && (if exists c :: c in board.cards && c.id == id
                then exists k: nat :: TakenOut(board.cards, after.cards, k) && board.cards[k].id == id
                else after.cards == board.cards)
  {
    var id := CardId(Trim(TextOr(Some(incoming), [])));
    WithoutIs(board.cards, id);
    WithoutDistinct(board.cards, id);
    GoodMembers(board.cards, remote);
    GoodMembers(Without(board.cards, id), remote);
    if exists c :: c in board.cards && c.id == id {
      var k := WithoutTakesOne(board.cards, id);
    } else {
      WithoutNothing(board.cards, id);
    }
  }

  /** A removal needs an allowed id, whether or not there is a card of it. */
  lemma RemoveAcceptedExactly(board: Board, incoming: Value, now: Text)
    ensures RemoveDeskCard(board, incoming, now).Ok? <==> incoming.Str? && Identifier(Trim(incoming.text))
    ensures RemoveDeskCard(board, incoming, now).Err? ==> RemoveDeskCard(board, incoming, now).error == InvalidCardId
  {
    assert Trim([]) == [];
    if incoming.Str? { IdentifierExactly(Trim(incoming.text)); }
  }

  /** Removing a card just added to a board with room gives the old cards back. */
  lemma RemoveUndoesUpsert(board: Board, raw: RawCard, now: Text, later: Text, remote: Text -> bool)
    requires GoodBoard(board, remote) && |board.cards| < DESK_MAX_CARDS && UpsertDeskCard(board, raw, now, remote).Ok?
    requires Find(board.cards, CardId(Trim(TextOr(raw.id, [])))).None?
    ensures var after := UpsertDeskCard(board, raw, now, remote).value;
            RemoveDeskCard(after, Str(after.cards[0].id.text), later) == Ok(Board(board.cards, later))
  {
    UpsertPlaces(board, raw, now, remote);
    var after := UpsertDeskCard(board, raw, now, remote).value;
    WithoutNothing(board.cards, after.cards[0].id);
    IdsAreTrimmed(after.cards[0].id.text);
    assert after.cards == [after.cards[0]] + board.cards;
  }
}
