/**
 * The per-chat running-total ledger behind the bot's buttons and messages: the state
 * table (one running total per chat, created at 0 on first use), the append-only
 * releases table, and the set of users whose next message is a custom amount.
 * Each handler is one atomic step; what it would show is returned as a Screen.
 */
module Ledger {
  import opened Wrappers
  import opened Text
  import opened Money
  import opened Access
  import opened History

  // ---------------------------------------------------------------------------
  // Button callback data
  // ---------------------------------------------------------------------------

  /** What a press of an inline button asks for, read from its callback data. */
  datatype Button =
    | Add(amount: string)    // "add:<amount>"
    | Custom                 // "custom"
    | Release                // "release"
    | ShowHistory            // "history"
    | Back                   // "back"
    | Unknown(data: string)  // anything else: no branch of the handler matches

  /** The handler's dispatch: data.startswith("add:") first, then the four exact words. */
  function DecodeButton(data: string): (b: Button)
    ensures b.Add? <==> |data| >= 4 && data[..4] == "add:"
    ensures b.Add? ==> b.amount == data[4..]
  {
    if |data| >= 4 && data[..4] == "add:" then
      // the amount is what follows the first ':'
      IndexAfter("add", ':', data[4..]);
      assert data == "add" + [':'] + data[4..];
      match IndexOf(data, ':')
      case Some(i) => Add(data[i + 1..])
      case None => Unknown(data)
    else if data == "custom" then Custom
    else if data == "release" then Release
    else if data == "history" then ShowHistory
    else if data == "back" then Back
    else Unknown(data)
  }

  /** The callback data the keyboards attach to each button. */
  function EncodeButton(b: Button): string {
    match b
    case Add(amount) => "add:" + amount
    case Custom => "custom"
    case Release => "release"
    case ShowHistory => "history"
    case Back => "back"
    case Unknown(data) => data
  }

  /** Every button the keyboards can carry is read back as itself. */
  lemma ButtonRoundTrip(b: Button)
    requires !b.Unknown?
    ensures DecodeButton(EncodeButton(b)) == b
  {
    if b.Add? {
      assert EncodeButton(b)[..4] == "add:" && EncodeButton(b)[4..] == b.amount;
    }
  }

  /** Reading callback data loses nothing: writing the button back gives the same data. */
  lemma ButtonDataRoundTrip(data: string)
    ensures EncodeButton(DecodeButton(data)) == data
  {
    if |data| >= 4 && data[..4] == "add:" {
      assert data == data[..4] + data[4..];
    }
  }

  /** The amounts on the panel's add buttons, in whole dollars. */
  const PANEL_AMOUNTS: seq<nat> := [10, 50, 100, 200, 500]

  /** The panel's add buttons each add their amount in cents. */
  lemma PanelButtonsAdd(i: nat)
    requires i < |PANEL_AMOUNTS|
    ensures DecodeButton(EncodeButton(Add(NatToDigits(PANEL_AMOUNTS[i])))) == Add(NatToDigits(PANEL_AMOUNTS[i]))
    ensures MoneyToCents(NatToDigits(PANEL_AMOUNTS[i])) == Ok(100 * PANEL_AMOUNTS[i])
  {
    ButtonRoundTrip(Add(NatToDigits(PANEL_AMOUNTS[i])));
    WholeUnitsToCents(PANEL_AMOUNTS[i]);
  }

  // ---------------------------------------------------------------------------
  // The state table as a value
  // ---------------------------------------------------------------------------

  /** The running total get_state reports: the stored one, or 0 for a chat without a row. */
  function TotalOf(totals: map<int, int>, chat: int): int {
    if chat in totals then totals[chat] else 0
  }

  /** The table after get_state(chat): a row at 0 is added when there was none. */
  function WithRow(totals: map<int, int>, chat: int): map<int, int> {
    totals[chat := TotalOf(totals, chat)]
  }

  /** get_state changes no total anybody can read: it only gives the chat a row. */
  lemma WithRowKeepsTotals(totals: map<int, int>, chat: int, c: int)
    ensures WithRow(totals, chat).Keys == totals.Keys + {chat}
    ensures TotalOf(WithRow(totals, chat), c) == TotalOf(totals, c)
  {
  }

  /** Setting a total right after get_state is the same as setting it on the old table. */
  lemma SetAfterRow(totals: map<int, int>, chat: int, total: int)
    ensures WithRow(totals, chat)[chat := total] == totals[chat := total]
  {
    var a, b := WithRow(totals, chat)[chat := total], totals[chat := total];
    assert a.Keys == b.Keys;
    assert forall c :: c in a ==> a[c] == b[c];
  }

  /** The table after adding cents to a chat's running total. */
  function Credited(totals: map<int, int>, chat: int, cents: int): map<int, int> {
    totals[chat := TotalOf(totals, chat) + cents]
  }

  /** An add raises that chat's total by exactly the cents and leaves every other chat's total alone. */
  lemma CreditOnlyThatChat(totals: map<int, int>, chat: int, cents: int, other: int)
    ensures TotalOf(Credited(totals, chat, cents), chat) == TotalOf(totals, chat) + cents
    ensures other != chat ==> TotalOf(Credited(totals, chat, cents), other) == TotalOf(totals, other)
    ensures Credited(totals, chat, cents).Keys == totals.Keys + {chat}
  {
  }

  /** Two adds to a chat are one add of their sum. */
  lemma CreditsAccumulate(totals: map<int, int>, chat: int, a: int, b: int)
    ensures Credited(Credited(totals, chat, a), chat, b) == Credited(totals, chat, a + b)
  {
  }

  /** The release record for a running total, if there is anything to release. */
  function ReleaseOf(chat: int, total: int, rate: Rate, user: int, at: string): (r: Option<ReleaseRecord>)
    ensures r.Some? <==> total > 0
    ensures r.Some? ==> r.value.chat == chat && r.value.total == total
                        && r.value.fee + r.value.net == total
                        && r.value.releasedBy == user && r.value.releasedAt == at
  {
    if total <= 0 then None
    else
      var split := ComputeFeeNet(total, rate);
      Some(ReleaseRecord(chat, total, split.fee, split.net, user, at))
  }

  /** The fee in a release record is the total times the rate, rounded half-up to the cent. */
  lemma ReleaseFeeIsRounded(chat: int, total: int, rate: Rate, user: int, at: string)
    requires total > 0
    ensures IsHalfUpRounding(total * rate.num, rate.den, ReleaseOf(chat, total, rate, user, at).value.fee)
  {
    FeeIsRounded(total, rate);
  }

  /** What a handler would show. */
  datatype Screen =
    | Ignored                        // not allowed, or a message nobody asked for
    | Panel(total: int)              // the running-total panel
    | AddRejected(error: MoneyError) // money_to_cents raised inside the add branch
    | AmountPrompt                   // "Send a number like 420 or 420.50."
    | InvalidAmount                  // "Invalid number": the custom amount was not accepted
    | Released(record: ReleaseRecord)
    | HistoryScreen(view: HistoryView)
    | Unchanged                      // callback data no branch handles

  // ---------------------------------------------------------------------------
  // The handlers as steps on the stored state
  // ---------------------------------------------------------------------------

  /** Everything the handlers change: the two tables and the awaiting set. */
  datatype LedgerState = LedgerState(totals: map<int, int>, releases: seq<ReleaseRecord>, awaiting: set<int>)

  /** Running totals are never negative, and every release records a positive total split by the fee rate. */
  ghost predicate ValidState(st: LedgerState, rate: Rate) {
    && (forall c :: c in st.totals ==> st.totals[c] >= 0)
    && (forall i :: 0 <= i < |st.releases| ==>
          st.releases[i].total > 0
          && ComputeFeeNet(st.releases[i].total, rate) == FeeNet(st.releases[i].fee, st.releases[i].net))
  }

  /** on_button as one step: the new state and the screen shown. */
  function ButtonStep(st: LedgerState, allowed: set<int>, rate: Rate, user: Option<int>, chat: int,
                      data: Option<string>, now: string): (LedgerState, Screen)
  {
    if !IsAllowed(user, allowed) then (st, Ignored)
    else
      var t := TotalOf(st.totals, chat);
      var rowed := st.(totals := WithRow(st.totals, chat));
      match DecodeButton(data.GetOr(""))
      case Add(amount) => AddBranch(rowed, chat, t, amount)
      case Custom => (rowed.(awaiting := rowed.awaiting + {user.value}), AmountPrompt)
      case Release => ReleaseBranch(rowed, rate, chat, t, user.value, now)
      case ShowHistory => (rowed, HistoryScreen(HistoryViewOf(RecentReleases(rowed.releases, chat))))
      case Back => (rowed, Panel(t))
      case Unknown(_) => (rowed, Unchanged)
  }

  /** The add branch, after get_state read t: set_total(t + cents), or nothing more if the amount is rejected. */
  function AddBranch(st: LedgerState, chat: int, t: int, amount: string): (LedgerState, Screen) {
    match MoneyToCents(amount)
    case Err(e) => (st, AddRejected(e))
    case Ok(cents) => (st.(totals := st.totals[chat := t + cents]), Panel(t + cents))
  }

  /** The release branch, after get_state read t: log a record when t is positive, then set_total(0). */
  function ReleaseBranch(st: LedgerState, rate: Rate, chat: int, t: int, user: int, now: string): (LedgerState, Screen) {
    match ReleaseOf(chat, t, rate, user, now)
    case None => (st.(totals := st.totals[chat := 0]), Panel(0))
    case Some(r) => (LedgerState(st.totals[chat := 0], st.releases + [r], st.awaiting), Released(r))
  }

  /** on_message as one step: only a user awaiting an amount is heard, and only an accepted amount changes anything. */
  function MessageStep(st: LedgerState, allowed: set<int>, user: Option<int>, chat: int, text: Option<string>): (LedgerState, Screen)
  {
    if !IsAllowed(user, allowed) || user.value !in st.awaiting then (st, Ignored)
    else
      match MoneyToCents(Strip(text.GetOr("")))
      case Err(_) => (st, InvalidAmount)
      case Ok(cents) => AcceptBranch(st, user.value, chat, cents)
  }

  /** An accepted custom amount: the user stops waiting, and get_state/set_total credit the chat. */
  function AcceptBranch(st: LedgerState, user: int, chat: int, cents: int): (LedgerState, Screen) {
    (LedgerState(Credited(st.totals, chat, cents), st.releases, st.awaiting - {user}), Panel(TotalOf(st.totals, chat) + cents))
  }

  /** on_button keeps the state valid. */
  lemma ButtonKeepsValid(st: LedgerState, allowed: set<int>, rate: Rate, user: Option<int>, chat: int,
                         data: Option<string>, now: string)
    requires ValidState(st, rate)
    ensures ValidState(ButtonStep(st, allowed, rate, user, chat, data, now).0, rate)
  {
    if IsAllowed(user, allowed) {
      var t := TotalOf(st.totals, chat);
      var rowed := st.(totals := WithRow(st.totals, chat));
      RowKeepsValid(st, rate, chat);
      match DecodeButton(data.GetOr(""))
      case Add(amount) => AddKeepsValid(rowed, rate, chat, t, amount);
      case Release => ReleaseKeepsValid(rowed, rate, chat, t, user.value, now);
      case _ =>
    }
  }

  /** get_state keeps the state valid: the row it may add holds 0. */
  lemma RowKeepsValid(st: LedgerState, rate: Rate, chat: int)
    requires ValidState(st, rate)
    ensures TotalOf(st.totals, chat) >= 0
    ensures ValidState(st.(totals := WithRow(st.totals, chat)), rate)
  {
  }

  /** An add sets a non-negative total, since money_to_cents never accepts a negative amount. */
  lemma AddKeepsValid(st: LedgerState, rate: Rate, chat: int, t: int, amount: string)
    requires ValidState(st, rate) && t >= 0
    ensures ValidState(AddBranch(st, chat, t, amount).0, rate)
  {
  }

  /** A release zeroes the total and logs only a positive total, split by the rate. */
  lemma ReleaseKeepsValid(st: LedgerState, rate: Rate, chat: int, t: int, user: int, now: string)
    requires ValidState(st, rate)
    ensures ValidState(ReleaseBranch(st, rate, chat, t, user, now).0, rate)
  {
    if t > 0 {
      var after := ReleaseBranch(st, rate, chat, t, user, now).0;
      var r := ReleaseOf(chat, t, rate, user, now).value;
      assert after.releases == st.releases + [r];
      assert forall i :: 0 <= i < |st.releases| ==> after.releases[i] == st.releases[i];
    }
  }

  /** on_message keeps the state valid: an accepted amount is never negative. */
  lemma MessageKeepsValid(st: LedgerState, allowed: set<int>, rate: Rate, user: Option<int>, chat: int, text: Option<string>)
    requires ValidState(st, rate)
    ensures ValidState(MessageStep(st, allowed, user, chat, text).0, rate)
  {
  }

  /** A user off the allow-list changes nothing and is shown nothing, whatever they press or send. */
  lemma RefusedUserChangesNothing(st: LedgerState, allowed: set<int>, rate: Rate, user: Option<int>, chat: int,
                                  data: Option<string>, text: Option<string>, now: string)
    requires !IsAllowed(user, allowed)
    ensures ButtonStep(st, allowed, rate, user, chat, data, now) == (st, Ignored)
    ensures MessageStep(st, allowed, user, chat, text) == (st, Ignored)
  {
  }

  /** An add button with an amount money_to_cents accepts credits exactly that amount to the chat. */
  lemma AddButtonCredits(st: LedgerState, allowed: set<int>, rate: Rate, user: Option<int>, chat: int,
                         amount: string, cents: int, now: string, other: int)
    requires IsAllowed(user, allowed) && MoneyToCents(amount) == Ok(cents)
    ensures var (after, shown) := ButtonStep(st, allowed, rate, user, chat, Some(EncodeButton(Add(amount))), now);
            && TotalOf(after.totals, chat) == TotalOf(st.totals, chat) + cents
            && (other != chat ==> TotalOf(after.totals, other) == TotalOf(st.totals, other))
            && after.releases == st.releases
            && after.awaiting == st.awaiting
            && shown == Panel(TotalOf(st.totals, chat) + cents)
  {
    AddPressed(st, allowed, rate, user, chat, amount, now);
    WithRowKeepsTotals(st.totals, chat, other);
  }

  /** Pressing an add button from an allowed user takes the add branch, after get_state. */
  lemma AddPressed(st: LedgerState, allowed: set<int>, rate: Rate, user: Option<int>, chat: int,
                   amount: string, now: string)
    requires IsAllowed(user, allowed)
    ensures ButtonStep(st, allowed, rate, user, chat, Some(EncodeButton(Add(amount))), now)
            == AddBranch(st.(totals := WithRow(st.totals, chat)), chat, TotalOf(st.totals, chat), amount)
  {
    ButtonRoundTrip(Add(amount));
  }

  /**
   * An accepted custom amount credits the chat as an add button does, and ends the wait;
   * releases are untouched.
   */
  lemma AcceptedAmountCredits(st: LedgerState, allowed: set<int>, user: Option<int>, chat: int, text: string,
                              cents: int, other: int)
    requires IsAllowed(user, allowed) && user.value in st.awaiting && MoneyToCents(Strip(text)) == Ok(cents)
    ensures var (after, shown) := MessageStep(st, allowed, user, chat, Some(text));
            && TotalOf(after.totals, chat) == TotalOf(st.totals, chat) + cents
            && (other != chat ==> TotalOf(after.totals, other) == TotalOf(st.totals, other))
            && after.releases == st.releases
            && after.awaiting == st.awaiting - {user.value}
            && shown == Panel(TotalOf(st.totals, chat) + cents)
  {
    MessageAccepted(st, allowed, user, chat, text, cents);
    CreditOnlyThatChat(st.totals, chat, cents, other);
  }

  /** A message that money_to_cents accepts from an awaiting user takes the accept branch. */
  lemma MessageAccepted(st: LedgerState, allowed: set<int>, user: Option<int>, chat: int, text: string, cents: int)
    requires IsAllowed(user, allowed) && user.value in st.awaiting && MoneyToCents(Strip(text)) == Ok(cents)
    ensures MessageStep(st, allowed, user, chat, Some(text)) == AcceptBranch(st, user.value, chat, cents)
  {
    assert Some(text).GetOr("") == text;
  }

  /**
   * The custom amount flow: the custom button puts the user in the awaiting set; then a
   * rejected text changes nothing and leaves the user waiting, an accepted one takes the
   * user out of the set.
   */
  lemma CustomAmountFlow(st: LedgerState, allowed: set<int>, rate: Rate, user: Option<int>, chat: int,
                         text: string, now: string)
    requires IsAllowed(user, allowed)
    ensures ButtonStep(st, allowed, rate, user, chat, Some("custom"), now).0.awaiting == st.awaiting + {user.value}
    ensures user.value !in st.awaiting ==> MessageStep(st, allowed, user, chat, Some(text)) == (st, Ignored)
    ensures user.value in st.awaiting && MoneyToCents(Strip(text)).Err? ==>
              MessageStep(st, allowed, user, chat, Some(text)) == (st, InvalidAmount)
    ensures user.value in st.awaiting && MoneyToCents(Strip(text)).Ok? ==>
              MessageStep(st, allowed, user, chat, Some(text)).0.awaiting == st.awaiting - {user.value}
  {
  }

  /**
   * Release: the chat's total becomes 0; exactly one record is logged when the total was
   * positive, none otherwise; the record carries the total and its fee/net split, and the
   * totals of other chats stay as they were.
   */
  lemma ReleaseAppendsOneOrNone(st: LedgerState, allowed: set<int>, rate: Rate, user: Option<int>, chat: int,
                                other: int, now: string)
    requires IsAllowed(user, allowed)
    ensures var after := ButtonStep(st, allowed, rate, user, chat, Some("release"), now).0;
            var t := TotalOf(st.totals, chat);
            && TotalOf(after.totals, chat) == 0
            && (other != chat ==> TotalOf(after.totals, other) == TotalOf(st.totals, other))
            && after.awaiting == st.awaiting
            && (t <= 0 ==> after.releases == st.releases)
            && (t > 0 ==> |after.releases| == |st.releases| + 1 && after.releases[..|st.releases|] == st.releases
                          && var r := after.releases[|st.releases|];
                             r.chat == chat && r.total == t && r.releasedBy == user.value && r.releasedAt == now
                             && FeeNet(r.fee, r.net) == ComputeFeeNet(t, rate))
  {
    var after := ButtonStep(st, allowed, rate, user, chat, Some("release"), now).0;
    SetAfterRow(st.totals, chat, 0);
    if TotalOf(st.totals, chat) > 0 {
      assert after.releases[..|st.releases|] == st.releases;
    }
  }

  /** Back changes nothing but the chat's row, and shows the panel with the chat's total. */
  lemma BackShowsPanel(st: LedgerState, allowed: set<int>, rate: Rate, user: Option<int>, chat: int, now: string)
    requires IsAllowed(user, allowed)
    ensures var (after, shown) := ButtonStep(st, allowed, rate, user, chat, Some("back"), now);
            && after.releases == st.releases && after.awaiting == st.awaiting
            && (forall c :: TotalOf(after.totals, c) == TotalOf(st.totals, c))
            && shown == Panel(TotalOf(st.totals, chat))
  {
    forall c ensures TotalOf(WithRow(st.totals, chat), c) == TotalOf(st.totals, c) {
      WithRowKeepsTotals(st.totals, chat, c);
    }
  }

  /** History changes nothing but the chat's row, and lists the chat's newest releases. */
  lemma HistoryShowsRecent(st: LedgerState, allowed: set<int>, rate: Rate, user: Option<int>, chat: int, now: string)
    requires IsAllowed(user, allowed)
    ensures var (after, shown) := ButtonStep(st, allowed, rate, user, chat, Some("history"), now);
            && after.releases == st.releases && after.awaiting == st.awaiting
            && (forall c :: TotalOf(after.totals, c) == TotalOf(st.totals, c))
            && shown == HistoryScreen(HistoryViewOf(RecentReleases(st.releases, chat)))
  {
    forall c ensures TotalOf(WithRow(st.totals, chat), c) == TotalOf(st.totals, c) {
      WithRowKeepsTotals(st.totals, chat, c);
    }
  }

  // ---------------------------------------------------------------------------
  // The ledger
  // ---------------------------------------------------------------------------

  class Ledger {
    /** The state table: chat id to total_cents. */
    var totals: map<int, int>
    /** The releases table, in id order (oldest first). */
    var releases: seq<ReleaseRecord>
    /** AWAITING_CUSTOM_AMOUNT: users whose next text message is read as an amount. */
    var awaiting: set<int>
    /** ALLOWED_IDS, read once at start-up. */
    const allowed: set<int>
    /** FEE_PCT, read once at start-up. */
    const rate: Rate

    ghost function State(): LedgerState
      reads this
    {
      LedgerState(totals, releases, awaiting)
    }

    ghost predicate Valid()
      reads this
    {
      ValidState(State(), rate)
    }

    constructor (allowedIds: set<int>, feeRate: Rate)
      ensures Valid()
      ensures totals == map[] && releases == [] && awaiting == {}
      ensures allowed == allowedIds && rate == feeRate
    {
      totals := map[];
      releases := [];
      awaiting := {};
      allowed := allowedIds;
      rate := feeRate;
    }

    /** get_state: the chat's running total, inserting a row at 0 if the chat has none. */
    method GetState(chat: int) returns (total: int)
      modifies this
      ensures total == TotalOf(old(totals), chat)
      ensures totals == WithRow(old(totals), chat)
      ensures releases == old(releases) && awaiting == old(awaiting)
    {
      total := TotalOf(totals, chat);
      if chat !in totals {
        totals := totals[chat := 0];
      }
    }

    /** set_total: an UPDATE of the chat's row; a chat without a row is left without one. */
    method SetTotal(chat: int, total: int)
      modifies this
      ensures totals == if chat in old(totals) then old(totals)[chat := total] else old(totals)
      ensures releases == old(releases) && awaiting == old(awaiting)
    {
      if chat in totals {
        totals := totals[chat := total];
      }
    }

    /** on_button: checks the user, creates the chat's row, then runs the branch the callback data names. */
    method OnButton(user: Option<int>, chat: int, data: Option<string>, now: string) returns (shown: Screen)
      requires Valid()
      modifies this
      ensures Valid()
      ensures (State(), shown) == ButtonStep(old(State()), allowed, rate, user, chat, data, now)
    {
      ButtonKeepsValid(State(), allowed, rate, user, chat, data, now);
      if !IsAllowed(user, allowed) {
        return Ignored;
      }
      var total := GetState(chat);
      match DecodeButton(data.GetOr(""))
      case Add(amount) =>
        shown := PressAdd(chat, total, amount);
      case Custom =>
        awaiting := awaiting + {user.value};
        shown := AmountPrompt;
      case Release =>
        shown := PressRelease(chat, total, user.value, now);
      case ShowHistory =>
        var view := RenderHistory(RecentReleases(releases, chat));
        shown := HistoryScreen(view);
      case Back =>
        total := GetState(chat);
        assert totals == old(WithRow(totals, chat));
        shown := Panel(total);
      case Unknown(_) =>
        shown := Unchanged;
    }

    /** The add branch, once the chat's row exists and its total has been read. */
    method PressAdd(chat: int, total: int, amount: string) returns (shown: Screen)
      requires chat in totals && totals[chat] == total
      modifies this
      ensures (State(), shown) == AddBranch(old(State()), chat, total, amount)
    {
      var parsed := MoneyToCents(amount);
      if parsed.Err? {
        return AddRejected(parsed.error);
      }
      SetTotal(chat, total + parsed.value);
      shown := Panel(total + parsed.value);
    }

    /** The release branch, once the chat's row exists and its total has been read. */
    method PressRelease(chat: int, total: int, user: int, now: string) returns (shown: Screen)
      requires chat in totals && totals[chat] == total
      modifies this
      ensures (State(), shown) == ReleaseBranch(old(State()), rate, chat, total, user, now)
    {
      if total <= 0 {
        SetTotal(chat, 0);
        return Panel(0);
      }
      var split := ComputeFeeNet(total, rate);
      var record := ReleaseRecord(chat, total, split.fee, split.net, user, now);
      releases := releases + [record];
      SetTotal(chat, 0);
      shown := Released(record);
    }

    /** on_message: checks the user and the awaiting set, reads the amount, and credits it. */
    method OnMessage(user: Option<int>, chat: int, text: Option<string>) returns (shown: Screen)
      requires Valid()
      modifies this
      ensures Valid()
      ensures (State(), shown) == MessageStep(old(State()), allowed, user, chat, text)
    {
      MessageKeepsValid(State(), allowed, rate, user, chat, text);
      if !IsAllowed(user, allowed) {
        return Ignored;
      }
      if user.value !in awaiting {
        return Ignored;
      }
      var stripped := Strip(text.GetOr(""));
      var parsed := MoneyToCents(stripped);
      if parsed.Err? {
        return InvalidAmount;
      }
      shown := AcceptAmount(user.value, chat, parsed.value);
    }

    /** The accepted-amount tail of on_message: leave the awaiting set, then get_state and set_total. */
    method AcceptAmount(user: int, chat: int, cents: int) returns (shown: Screen)
      modifies this
      ensures (State(), shown) == AcceptBranch(old(State()), user, chat, cents)
    {
      awaiting := awaiting - {user};
      var total := GetState(chat);
      SetAfterRow(old(totals), chat, total + cents);
      SetTotal(chat, total + cents);
      shown := Panel(total + cents);
    }
  }

  /** The handler strips the message and money_to_cents strips again; the second strip changes nothing. */
  lemma MessageStripHarmless(text: string)
    ensures MoneyToCents(Strip(text)) == MoneyToCents(text)
  {
    StripIdempotent(text);
  }
}
