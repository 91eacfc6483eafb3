/**
 * The conversation of `commands.py`: the per-user registration dialog
 * driven by `command_add_group`, `command_cancel` and
 * `handle_command_response` (and `command_start`, which only registers the
 * user), plus the packing of `command_list_all`.
 *
 * `Step` is the transition of one user's row and of the `mods` table on one
 * message; the methods perform the same transition through the store's own
 * operations and are proved against it. Replies are tags named after the
 * text each one sends.
 */
module Commands {
  import opened Wrappers
  import opened Validate
  import opened Database
  import opened Listing

  /** What a user sends: one of the commands, or free text on the given day. */
  datatype Event = StartCommand | AddGroupCommand | CancelCommand | TextMessage(text: string, today: int)

  /** The message sent back, named after its template; `NoResponse` when nothing is sent. */
  datatype Reply =
    | HelpText
    | AddGroupModPrompt
    | CancelStateNone
    | CancelStateSome
    | NoResponse
    | ResponsePromptUrl
    | ResponseInvalidMod
    | ResponseInvalidUrl
    | ResponseSuccess
    | ResponseAlreadyMod
    | ResponseAlreadyUrl

  /** The user's row and the `mods` table after a message, and the reply. */
  datatype Outcome = Outcome(row: UserRow, mods: map<string, Mod>, reply: Reply)

  /** A message of `user`. */
  datatype Message = Message(user: string, event: Event)

  /**
   * The dialog invariant: a code is held exactly while the url is awaited,
   * and it is a valid module code; the scratch field is never used.
   */
  ghost predicate WellFormed(row: UserRow) {
    && (row.state == AddGroupUrl ==> row.codeTemp.Some? && IsModCode(row.codeTemp.value))
    && (row.state != AddGroupUrl ==> row.codeTemp == None)
    && row.msgTemp == None
  }

  /** Every stored row is keyed by its id and keeps the dialog invariant. */
  ghost predicate UsersWellFormed(users: map<string, UserRow>) {
    forall u :: u in users ==> users[u].id == u && WellFormed(users[u])
  }

  /** The row written on a transition to `state` with no code held. */
  function Reset(row: UserRow, state: State): UserRow {
    UserRow(row.id, state, None, None)
  }

  /**
   * `handle_command_response` for the row `get_user` returned. A code the
   * store refuses as taken (the 'code' branch of the IntegrityError handler)
   * sends the user back to the code step; a url the store refuses as taken
   * (the 'url' branch) changes nothing. A missing held code makes sqlite's
   * NOT NULL check on `mods.code` fail, which the same 'code' branch handles.
   */
  function Respond(row: UserRow, mods: map<string, Mod>, text: string, today: int): (o: Outcome)
    ensures o.row.id == row.id
    ensures WellFormed(row) ==> WellFormed(o.row)
    ensures Consistent(mods) ==> Consistent(o.mods)
    ensures o.mods != mods ==> o.reply == ResponseSuccess
    ensures o.reply == ResponseSuccess ==> row.state == AddGroupUrl && row.codeTemp.Some? && o.row == DefaultUser(row.id)
    ensures o.reply == ResponseSuccess ==> o.mods.Keys == mods.Keys + {row.codeTemp.value} && |o.mods| == |mods| + 1
    ensures o.reply == ResponseSuccess ==> o.mods[row.codeTemp.value].admin == row.id
  {
    match row.state
    case Idle => Outcome(row, mods, NoResponse)
    case AddGroupCode => CodeStep(row, mods, text)
    case AddGroupUrl => UrlStep(row, mods, text, today)
  }

  /** `handle_command_response` at 'add_group@code'. */
  function CodeStep(row: UserRow, mods: map<string, Mod>, text: string): (o: Outcome)
    requires row.state == AddGroupCode
    ensures o.row.id == row.id && o.mods == mods && o.reply != ResponseSuccess
    ensures WellFormed(row) ==> WellFormed(o.row)
  {
    match SanitiseMod(text)
    case Ok(code) => Outcome(UserRow(row.id, AddGroupUrl, Some(code), None), mods, ResponsePromptUrl)
    case Err(_) => Outcome(row, mods, ResponseInvalidMod)
  }

  /** `handle_command_response` at 'add_group@url'. */
  function UrlStep(row: UserRow, mods: map<string, Mod>, text: string, today: int): (o: Outcome)
    requires row.state == AddGroupUrl
    ensures o.row.id == row.id
    ensures WellFormed(row) ==> WellFormed(o.row)
    ensures Consistent(mods) ==> Consistent(o.mods)
    ensures o.mods != mods ==> o.reply == ResponseSuccess
    ensures o.reply == ResponseSuccess ==> row.codeTemp.Some? && o.row == DefaultUser(row.id)
    ensures o.reply == ResponseSuccess ==> o.mods.Keys == mods.Keys + {row.codeTemp.value} && |o.mods| == |mods| + 1
    ensures o.reply == ResponseSuccess ==> o.mods[row.codeTemp.value].admin == row.id
  {
    match SanitiseUrl(text)
    case Err(_) => Outcome(row, mods, ResponseInvalidUrl)
    case Ok(url) => Register(row, mods, url, today)
  }

  /** The url step once `url` has been accepted: the INSERT of the held code and its outcome. */
  function Register(row: UserRow, mods: map<string, Mod>, url: string, today: int): (o: Outcome)
    requires row.state == AddGroupUrl
    ensures o.row.id == row.id
    ensures WellFormed(row) ==> WellFormed(o.row)
    ensures Consistent(mods) ==> Consistent(o.mods)
    ensures o.mods != mods ==> o.reply == ResponseSuccess
    ensures o.reply == ResponseSuccess ==> row.codeTemp.Some? && o.row == DefaultUser(row.id)
    ensures o.reply == ResponseSuccess ==> o.mods.Keys == mods.Keys + {row.codeTemp.value} && |o.mods| == |mods| + 1
    ensures o.reply == ResponseSuccess ==> o.mods[row.codeTemp.value].admin == row.id
  {
    var dates := GetDates(today);
    match row.codeTemp
    case None => Outcome(Reset(row, AddGroupCode), mods, ResponseAlreadyMod)
    case Some(code) =>
      match InsertMod(mods, Mod(url, code, dates.0, dates.1, row.id))
      case Ok(next) => Outcome(Reset(row, Idle), next, ResponseSuccess)
      case Err(DuplicateCode) => Outcome(Reset(row, AddGroupCode), mods, ResponseAlreadyMod)
      case Err(DuplicateUrl) => Outcome(row, mods, ResponseAlreadyUrl)
  }

  /**
   * One message of the user whose row is `row`. Every transition keeps the
   * dialog invariant and the table constraints, and `mods` changes only on a
   * successful registration, which adds the held code's row with the user as
   * admin and ends the dialog.
   */
  function Step(row: UserRow, mods: map<string, Mod>, event: Event): (o: Outcome)
    ensures o.row.id == row.id
    ensures WellFormed(row) ==> WellFormed(o.row)
    ensures Consistent(mods) ==> Consistent(o.mods)
    ensures o.mods != mods ==> o.reply == ResponseSuccess
    ensures o.reply == ResponseSuccess ==>
      && event.TextMessage? && row.state == AddGroupUrl && row.codeTemp.Some?
      && o.row == DefaultUser(row.id)
      && o.mods.Keys == mods.Keys + {row.codeTemp.value} && |o.mods| == |mods| + 1
      && o.mods[row.codeTemp.value].admin == row.id
  {
    match event
    case StartCommand => Outcome(row, mods, HelpText)
    case AddGroupCommand => Outcome(Reset(row, AddGroupCode), mods, AddGroupModPrompt)
    case CancelCommand =>
      if row.state == Idle then Outcome(row, mods, CancelStateNone)
      else Outcome(Reset(row, Idle), mods, CancelStateSome)
    case TextMessage(text, today) => Respond(row, mods, text, today)
  }

  /**
   * Both tables after `msg`: the sender's row is read as `get_user` reads it
   * (inserted if missing), replaced by the transition's row, and no other
   * user's row changes.
   */
  function Deliver(t: Snapshot, msg: Message): (r: Snapshot)
    ensures UsersWellFormed(t.users) ==> UsersWellFormed(r.users)
    ensures Consistent(t.mods) ==> Consistent(r.mods)
    ensures r.users.Keys == t.users.Keys + {msg.user}
    ensures forall u :: u in t.users && u != msg.user ==> r.users[u] == t.users[u]
  {
    var o := Step(Lookup(t.users, msg.user), t.mods, msg.event);
    Snapshot(t.users[msg.user := o.row], o.mods)
  }

  /** `Deliver` and `ReplyTo` through the outcome of the sender's transition. */
  lemma DeliverOutcome(t: Snapshot, msg: Message, o: Outcome)
    requires o == Step(Lookup(t.users, msg.user), t.mods, msg.event)
    ensures Deliver(t, msg) == Snapshot(t.users[msg.user := o.row], o.mods)
    ensures ReplyTo(t, msg) == o.reply
  {
  }

  /** The reply to `msg`. */
  function ReplyTo(t: Snapshot, msg: Message): Reply {
    Step(Lookup(t.users, msg.user), t.mods, msg.event).reply
  }

  /** The tables after a sequence of messages, one at a time in arrival order. */
  function Replay(t: Snapshot, msgs: seq<Message>): Snapshot
    decreases |msgs|
  {
    if msgs == [] then t else Replay(Deliver(t, msgs[0]), msgs[1..])
  }

  /** Any sequence of messages from any users keeps both invariants. */
  lemma {:induction false} ReplayKeepsInvariants(t: Snapshot, msgs: seq<Message>)
    requires UsersWellFormed(t.users) && Consistent(t.mods)
    ensures UsersWellFormed(Replay(t, msgs).users) && Consistent(Replay(t, msgs).mods)
    decreases |msgs|
  {
    if msgs != [] {
      ReplayKeepsInvariants(Deliver(t, msgs[0]), msgs[1..]);
    }
  }

  // ---------------------------------------------------------------------------
  // The transitions one by one

  /** `command_add_group` puts every user at the code step, whatever the earlier state. */
  lemma AddGroupFromAnyState(a: UserRow, b: UserRow, mods: map<string, Mod>)
    requires a.id == b.id
    ensures Step(a, mods, AddGroupCommand) == Step(b, mods, AddGroupCommand)
    ensures Step(a, mods, AddGroupCommand).row == UserRow(a.id, AddGroupCode, None, None)
    ensures Step(a, mods, AddGroupCommand).mods == mods
  {
  }

  /** `command_cancel` clears an active dialog and leaves an idle row as it was. */
  lemma CancelOutcome(row: UserRow, mods: map<string, Mod>)
    ensures Step(row, mods, CancelCommand).mods == mods
    ensures Step(row, mods, CancelCommand).row.state == Idle
    ensures row.state == Idle <==> Step(row, mods, CancelCommand).reply == CancelStateNone
    ensures row.state == Idle ==> Step(row, mods, CancelCommand).row == row
    ensures row.state != Idle ==> Step(row, mods, CancelCommand).row == DefaultUser(row.id)
  {
  }

  /** Free text outside the dialog is ignored. */
  lemma IdleIgnoresText(row: UserRow, mods: map<string, Mod>, text: string, today: int)
    requires row.state == Idle
    ensures Step(row, mods, TextMessage(text, today)) == Outcome(row, mods, NoResponse)
  {
  }

  /** At the code step a valid code is held and the url awaited; anything else changes nothing. */
  lemma CodeStepOutcome(row: UserRow, mods: map<string, Mod>, text: string, today: int)
    requires row.state == AddGroupCode
    ensures var o := Step(row, mods, TextMessage(text, today));
      && o.mods == mods
      && (SanitiseMod(text).Ok? ==> o.row == UserRow(row.id, AddGroupUrl, Some(SanitiseMod(text).value), None))
      && (SanitiseMod(text).Err? ==> o.row == row && o.reply == ResponseInvalidMod)
  {
  }

  /** Free text at the url step is handled by `UrlStep`. */
  lemma TextAtUrlStep(row: UserRow, mods: map<string, Mod>, text: string, today: int)
    requires row.state == AddGroupUrl
    ensures Step(row, mods, TextMessage(text, today)) == UrlStep(row, mods, text, today)
  {
    assert Step(row, mods, TextMessage(text, today)) == Respond(row, mods, text, today);
  }

  /** At the url step, an invalid url changes nothing; a valid one goes on to `Register`. */
  lemma UrlStepOutcome(row: UserRow, mods: map<string, Mod>, text: string, today: int)
    requires row.state == AddGroupUrl
    ensures SanitiseUrl(text).Err? ==> UrlStep(row, mods, text, today) == Outcome(row, mods, ResponseInvalidUrl)
    ensures SanitiseUrl(text).Ok? ==> UrlStep(row, mods, text, today) == Register(row, mods, SanitiseUrl(text).value, today)
  {
  }

  /**
   * A held code that is already registered sends the user back to the code
   * step and leaves `mods` alone; it is reported even when the url is taken
   * too, since the code is checked first.
   */
  lemma TakenCodeRestartsCodeStep(row: UserRow, mods: map<string, Mod>, url: string, today: int)
    requires row.state == AddGroupUrl && row.codeTemp.Some? && row.codeTemp.value in mods
    ensures Register(row, mods, url, today)
         == Outcome(UserRow(row.id, AddGroupCode, None, None), mods, ResponseAlreadyMod)
  {
  }

  /** A url registered under another code changes nothing: the url may be retried. */
  lemma TakenUrlKeepsState(row: UserRow, mods: map<string, Mod>, url: string, today: int)
    requires row.state == AddGroupUrl && row.codeTemp.Some? && row.codeTemp.value !in mods
    requires url in UrlsOf(mods)
    ensures Register(row, mods, url, today) == Outcome(row, mods, ResponseAlreadyUrl)
  {
    var m := Mod(url, row.codeTemp.value, today + 30, today + 60, row.id);
    assert InsertMod(mods, m) == Err(DuplicateUrl);
  }

  /**
   * A url and a held code, neither of them taken, register the mod, dated
   * 30 and 60 days ahead with the user as admin, and end the dialog.
   */
  lemma FreshUrlRegisters(row: UserRow, mods: map<string, Mod>, url: string, today: int)
    requires row.state == AddGroupUrl && row.codeTemp.Some? && row.codeTemp.value !in mods
    requires url !in UrlsOf(mods)
    ensures var code := row.codeTemp.value;
      Register(row, mods, url, today)
      == Outcome(DefaultUser(row.id), mods[code := Mod(url, code, today + 30, today + 60, row.id)], ResponseSuccess)
  {
    var code := row.codeTemp.value;
    var m := Mod(url, code, today + 30, today + 60, row.id);
    assert InsertMod(mods, m) == Ok(mods[code := m]);
  }

  /**
   * Registering a fresh code and url in two messages stores the record that
   * `get_mod` then returns, with the url, the admin and both dates.
   */
  lemma RegistrationRoundTrip(row: UserRow, mods: map<string, Mod>, codeText: string, urlText: string, day: int, today: int)
    requires row.state == AddGroupCode
    requires SanitiseMod(codeText).Ok? && SanitiseUrl(urlText).Ok?
    requires SanitiseMod(codeText).value !in mods && SanitiseUrl(urlText).value !in UrlsOf(mods)
    ensures var first := Step(row, mods, TextMessage(codeText, day));
      var second := Step(first.row, first.mods, TextMessage(urlText, today));
      var code := SanitiseMod(codeText).value;
      && second.reply == ResponseSuccess
      && second.row.state == Idle
      && code in second.mods
      && second.mods[code] == Mod(SanitiseUrl(urlText).value, code, today + 30, today + 60, row.id)
  {
    var first := Step(row, mods, TextMessage(codeText, day));
    CodeStepOutcome(row, mods, codeText, day);
    assert first.row == UserRow(row.id, AddGroupUrl, Some(SanitiseMod(codeText).value), None) && first.mods == mods;
    FreshUrlRegisters(first.row, first.mods, SanitiseUrl(urlText).value, today);
    UrlStepOutcome(first.row, first.mods, urlText, today);
    TextAtUrlStep(first.row, first.mods, urlText, today);
  }

  // ---------------------------------------------------------------------------
  // The command handlers on the store

  /** `command_start`: the help text, and the user registered by `add_user`. */
  method CommandStart(db: Connection, user: string) returns (reply: Reply)
    requires db.Valid()
    modifies db
    ensures db.Valid()
    ensures db.Contents() == Deliver(old(db.Contents()), Message(user, StartCommand))
    ensures reply == ReplyTo(old(db.Contents()), Message(user, StartCommand))
  {
    db.AddUser(user);
    reply := HelpText;
  }

  /** `command_add_group`: the user's row becomes ('add_group@code', None, None). */
  method CommandAddGroup(db: Connection, user: string) returns (reply: Reply)
    requires db.Valid()
    modifies db
    ensures db.Valid()
    ensures db.Contents() == Deliver(old(db.Contents()), Message(user, AddGroupCommand))
    ensures reply == ReplyTo(old(db.Contents()), Message(user, AddGroupCommand))
  {
    db.UpdateUser(user, AddGroupCode, None, None);
    reply := AddGroupModPrompt;
  }

  /** `command_cancel`: reads the row (inserting it if missing) and clears an active dialog. */
  method CommandCancel(db: Connection, user: string) returns (reply: Reply)
    requires db.Valid()
    modifies db
    ensures db.Valid()
    ensures db.Contents() == Deliver(old(db.Contents()), Message(user, CancelCommand))
    ensures reply == ReplyTo(old(db.Contents()), Message(user, CancelCommand))
  {
    var row := db.GetUser(user);
    if row.state == Idle {
      reply := CancelStateNone;
    } else {
      reply := CancelStateSome;
      db.UpdateUser(user, Idle, None, None);
    }
  }

  /** `handle_command_response` for the text `text`, sent on day `today`. */
  method HandleCommandResponse(db: Connection, user: string, text: string, today: int) returns (reply: Reply)
    requires db.Valid()
    modifies db
    ensures db.Valid()
    ensures db.Contents() == Deliver(old(db.Contents()), Message(user, TextMessage(text, today)))
    ensures reply == ReplyTo(old(db.Contents()), Message(user, TextMessage(text, today)))
  {
    ghost var before := db.Contents();
    var row := db.GetUser(user);
    ghost var read := db.users;
    reply := RespondToText(db, user, row, text, today);
    ghost var o := Respond(row, before.mods, text, today);
    assert db.users == read[user := o.row] == before.users[user := o.row];
    DeliverOutcome(before, Message(user, TextMessage(text, today)), o);
  }

  /** `handle_command_response` after `get_user` returned `row`: the branch on its state. */
  method RespondToText(db: Connection, user: string, row: UserRow, text: string, today: int) returns (reply: Reply)
    requires db.Valid() && user in db.users && db.users[user] == row
    modifies db
    ensures db.Valid()
    ensures var o := Respond(row, old(db.mods), text, today);
      db.users == old(db.users)[user := o.row] && db.mods == o.mods && reply == o.reply
  {
    match row.state {
      case Idle =>
        reply := NoResponse;
        assert db.users == old(db.users)[user := row];
      case AddGroupCode =>
        reply := RespondAtCode(db, user, row, text);
      case AddGroupUrl =>
        reply := RespondAtUrl(db, user, row, text, today);
    }
  }

  /** The 'add_group@code' branch of `handle_command_response`, on the row `get_user` returned. */
  method RespondAtCode(db: Connection, user: string, row: UserRow, text: string) returns (reply: Reply)
    requires db.Valid() && user in db.users && db.users[user] == row && row.state == AddGroupCode
    modifies db
    ensures db.Valid()
    ensures var o := CodeStep(row, old(db.mods), text);
      db.users == old(db.users)[user := o.row] && db.mods == o.mods && reply == o.reply
  {
    var code := SanitiseMod(text);
    if code.Ok? {
      db.UpdateUser(user, AddGroupUrl, Some(code.value), None);
      reply := ResponsePromptUrl;
    } else {
      reply := ResponseInvalidMod;
      assert db.users == old(db.users)[user := row];
    }
  }

  /** The 'add_group@url' branch of `handle_command_response`, on the row `get_user` returned. */
  method RespondAtUrl(db: Connection, user: string, row: UserRow, text: string, today: int) returns (reply: Reply)
    requires db.Valid() && user in db.users && db.users[user] == row && row.state == AddGroupUrl
    modifies db
    ensures db.Valid()
    ensures var o := UrlStep(row, old(db.mods), text, today);
      db.users == old(db.users)[user := o.row] && db.mods == o.mods && reply == o.reply
  {
    UrlStepOutcome(row, db.mods, text, today);
    var url := SanitiseUrl(text);
    if url.Err? {
      reply := ResponseInvalidUrl;
      assert db.users == old(db.users)[user := row];
    } else {
      var dates := GetDates(today);
      var held := db.GetUser(user);
      assert held == row;
      reply := RegisterHeld(db, user, row, url.value, today, dates);
    }
  }

  /** The INSERT of `handle_command_response` and its IntegrityError handler. */
  method RegisterHeld(db: Connection, user: string, row: UserRow, url: string, today: int, dates: (int, int))
    returns (reply: Reply)
    requires db.Valid() && user in db.users && db.users[user] == row && row.state == AddGroupUrl
    requires dates == GetDates(today)
    modifies db
    ensures db.Valid()
    ensures var o := Register(row, old(db.mods), url, today);
      db.users == old(db.users)[user := o.row] && db.mods == o.mods && reply == o.reply
  {
    match row.codeTemp {
      case None =>
        reply := ResponseAlreadyMod;
        db.UpdateUser(user, AddGroupCode, None, None);
      case Some(code) =>
        ghost var mods := db.mods;
        var err := db.AddMod(url, code, dates.0, dates.1, user);
        match err {
          case None =>
            FreshUrlRegisters(row, mods, url, today);
            db.UpdateUser(user, Idle, None, None);
            reply := ResponseSuccess;
          case Some(DuplicateCode) =>
            TakenCodeRestartsCodeStep(row, mods, url, today);
            reply := ResponseAlreadyMod;
            db.UpdateUser(user, AddGroupCode, None, None);
          case Some(DuplicateUrl) =>
            TakenUrlKeepsState(row, mods, url, today);
            reply := ResponseAlreadyUrl;
            assert db.users == old(db.users)[user := row];
        }
    }
  }

  /** What `command_list_all` sends: the empty-list notice, or the packed messages. */
  datatype ListReply = ListAllIsEmpty | Messages(messages: seq<string>)

  /**
   * `command_list_all`: every mod, formatted from its code and url by
   * `format` (the list template), packed into messages. `listed` is the order
   * the store returned the mods in.
   */
  method CommandListAll(db: Connection, format: (string, string) -> string)
    returns (reply: ListReply, ghost listed: seq<Mod>)
    requires db.Valid()
    ensures forall m :: m in listed <==> m in db.mods.Values
    ensures forall i, j :: 0 <= i < j < |listed| ==> listed[i].code != listed[j].code
    ensures reply == ListAllIsEmpty <==> db.mods == map[]
    ensures reply.Messages? ==>
      && reply.messages != []
      && JoinLines(reply.messages) == JoinLines(seq(|listed|, i requires 0 <= i < |listed| => format(listed[i].code, listed[i].url)))
      && (forall i :: 0 <= i < |reply.messages| - 1 ==> |reply.messages[i]| >= MsgCharLimit)
  {
    var mods := db.GetAllMods();
    listed := mods;
    var entries := seq(|mods|, i requires 0 <= i < |mods| => format(mods[i].code, mods[i].url));
    if entries == [] {
      reply := ListAllIsEmpty;
    } else {
      var messages, groups := ChunkEntries(entries);
      reply := Messages(messages);
      assert mods[0] in db.mods.Values;
    }
  }
}
