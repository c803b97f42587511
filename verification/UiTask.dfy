/** The prompt loop of the message store, and the interpreter of input lines that it amounts to. */
module UiTask {
  import opened Bytes
  import opened Device
  import opened Mailboxes

  const WELCOME := "\nWelcome to the Message Store. Your options are: \n"
  const ADD := "1. Add a new user to Message Store"
  const SEND := "2. Send a message to a user"
  const RECV := "3. Receive all messages bound to a user"
  const EXIT := "4. Exit Message Store"
  const GOOD_BYE := "Thank you for using Message Store. Drop by any time!"
  const BAD_OPT := "Bad option selected. Please try again"
  const USR_ADD := "Please enter your first and last name, separated by a space "
  const SEND_USR_FROM := "Please enter the first and last name of the user " +
                         "__FROM__ which the message is sent, separated by space."
  const SEND_USR_TO := "Please enter the first and last name of the user " +
                       "__TO__ which the message is sent, separated by space."
  const NO_SUCH_USER := "The user you have requested does not exist in the system. Please try again."
  const USER_MSG := "Please enter the message you wish to send [128 chars max]."
  const RCV_USR := "Please enter the first and last name of the user for which you " +
                   "would like to receive messages, separated by space"
  const USR_EXIST := "The user you chose to add exists in the system."
  const MSG_HEADER := "\nUser Messages:"
  const NO_MSG := "\nNo messages for this user"
  const MAX_USR_NAME: nat := 20
  const MAX_USR_LAST: nat := 20
  const MAX_MSG_SIZE: nat := 128

  const MENU := [WELCOME, ADD, SEND, RECV, EXIT]

  // ---- Names ----

  function IndexOf(s: string, c: char): (k: nat)
    ensures k <= |s| && (k < |s| ==> s[k] == c) && forall i :: 0 <= i < k ==> s[i] != c
  {
    if s == [] || s[0] == c then 0 else 1 + IndexOf(s[1..], c)
  }

  /** First name up to a space; last name from there, up to a null character. */
  function ParseUser(line: string): User {
    var k := IndexOf(line, ' ');
    if k == |line| then User(line, "")
    else
      var rest := line[k + 1..];
      User(line[..k], rest[..IndexOf(rest, '\0')])
  }

  // ---- The interpreter ----

  datatype Status = Going | Exited | Broken

  /** What a turn or a session does: the lines and the store it leaves, what it shows, the requests it
    put to the store, and how it ends. */
  datatype Turn = Turn(feed: Lines, store: Store, out: seq<string>, ops: seq<Op>, status: Status)

  function Texts(msgs: Box): seq<string> {
    if msgs == [] then [] else [msgs[0].text] + Texts(msgs[1..])
  }

  function Render(r: Response): seq<string> {
    match r
    case Added(code) => if code == EXISTS then [USR_EXIST] else []
    case Sent => []
    case Got(msgs) => if msgs == [] then [NO_MSG] else [MSG_HEADER] + Texts(msgs)
    case NoSuchUser => [NO_SUCH_USER]
  }

  /** Put a request to the store and show the answer. */
  function Serve(hash: Hash, f: Lines, store: Store, prompts: seq<string>, op: Op): Turn {
    var (store', r) := Apply(hash, store, op);
    Turn(f, store', prompts + Render(r), [op], Going)
  }

  function AddTurn(hash: Hash, f: Lines, store: Store): (t: Turn)
    ensures t.status != Exited && LinesLeft(t.feed) <= LinesLeft(f)
  {
    var (name, f') := NextLine(f, MAX_USR_NAME + MAX_USR_LAST);
    if name == None then Turn(f', store, [USR_ADD], [], Broken)
    else Serve(hash, f', store, [USR_ADD], Add(ParseUser(name.value)))
  }

  function RecvTurn(hash: Hash, f: Lines, store: Store): (t: Turn)
    ensures t.status != Exited && LinesLeft(t.feed) <= LinesLeft(f)
  {
    var (name, f') := NextLine(f, MAX_USR_NAME + MAX_USR_LAST);
    if name == None then Turn(f', store, [RCV_USR], [], Broken)
    else Serve(hash, f', store, [RCV_USR], Receive(ParseUser(name.value)))
  }

  /** The prompts stop at the first user that does not exist. */
  function SendTurn(hash: Hash, f: Lines, store: Store): (t: Turn)
    ensures t.status != Exited && LinesLeft(t.feed) <= LinesLeft(f)
  {
    var (from, f1) := NextLine(f, MAX_USR_NAME + MAX_USR_LAST);
    if from == None then Turn(f1, store, [SEND_USR_FROM], [], Broken)
    else if Key(hash, ParseUser(from.value)) !in store then Turn(f1, store, [SEND_USR_FROM, NO_SUCH_USER], [], Going)
    else SendToTurn(hash, f1, store, ParseUser(from.value))
  }

  function SendToTurn(hash: Hash, f: Lines, store: Store, from: User): (t: Turn)
    ensures t.status != Exited && LinesLeft(t.feed) <= LinesLeft(f)
  {
    var (to, f1) := NextLine(f, MAX_USR_NAME + MAX_USR_LAST);
    if to == None then Turn(f1, store, [SEND_USR_FROM, SEND_USR_TO], [], Broken)
    else if Key(hash, ParseUser(to.value)) !in store then
      Turn(f1, store, [SEND_USR_FROM, SEND_USR_TO, NO_SUCH_USER], [], Going)
    else
      var (text, f2) := NextLine(f1, MAX_MSG_SIZE);
      if text == None then Turn(f2, store, [SEND_USR_FROM, SEND_USR_TO, USER_MSG], [], Broken)
      else
        Serve(hash, f2, store, [SEND_USR_FROM, SEND_USR_TO, USER_MSG],
              Send(UserMsg(from, ParseUser(to.value), text.value)))
  }

  datatype UserOption = AddUser | SendMsg | RecvAllMsgs | ExitStore | BadOption

  function OptionOf(line: string): UserOption {
    if line == "1" then AddUser
    else if line == "2" then SendMsg
    else if line == "3" then RecvAllMsgs
    else if line == "4" then ExitStore
    else BadOption
  }

  function Handle(hash: Hash, f: Lines, store: Store, opt: UserOption): (t: Turn)
    ensures LinesLeft(t.feed) <= LinesLeft(f)
  {
    match opt
    case AddUser => AddTurn(hash, f, store)
    case SendMsg => SendTurn(hash, f, store)
    case RecvAllMsgs => RecvTurn(hash, f, store)
    case ExitStore => Turn(f, store, [GOOD_BYE], [], Exited)
    case BadOption => Turn(f, store, [BAD_OPT], [], Going)
  }

  /** One turn: the menu, an option line, and what the option asks for. */
  function TakeTurn(hash: Hash, f: Lines, store: Store): (t: Turn)
    ensures t.status == Going ==> LinesLeft(t.feed) < LinesLeft(f)
  {
    var (line, f') := NextLine(f, 1);
    if line == None then Turn(f', store, MENU, [], Broken)
    else
      var t := Handle(hash, f', store, OptionOf(line.value));
      Turn(t.feed, t.store, MENU + t.out, t.ops, t.status)
  }

  function Session(hash: Hash, f: Lines, store: Store): Turn
    decreases LinesLeft(f)
  {
    var t := TakeTurn(hash, f, store);
    if t.status != Going then t
    else
      var rest := Session(hash, t.feed, t.store);
      Turn(rest.feed, rest.store, t.out + rest.out, t.ops + rest.ops, rest.status)
  }

  lemma TurnParts(hash: Hash, f: Lines, store: Store)
    ensures var (line, f') := NextLine(f, 1);
      if line == None then TakeTurn(hash, f, store) == Turn(f', store, MENU, [], Broken)
      else
        var t := Handle(hash, f', store, OptionOf(line.value));
        TakeTurn(hash, f, store) == Turn(t.feed, t.store, MENU + t.out, t.ops, t.status)
  {
  }

  /** A turn that comes after others. */
  function After(shown: seq<string>, ops: seq<Op>, t: Turn): Turn {
    Turn(t.feed, t.store, shown + t.out, ops + t.ops, t.status)
  }

  lemma SessionGoes(hash: Hash, f: Lines, store: Store, shown: seq<string>, ops: seq<Op>)
    ensures var t := TakeTurn(hash, f, store);
      After(shown, ops, Session(hash, f, store)) ==
        if t.status == Going then After(shown + t.out, ops + t.ops, Session(hash, t.feed, t.store))
        else After(shown, ops, t)
  {
    hide TakeTurn;
    var t := TakeTurn(hash, f, store);
    if t.status == Going {
      var rest := Session(hash, t.feed, t.store);
      assert shown + (t.out + rest.out) == shown + t.out + rest.out;
      assert ops + (t.ops + rest.ops) == ops + t.ops + rest.ops;
    }
  }

  lemma Regroup(a: seq<string>, b: seq<string>, c: seq<string>, d: seq<string>)
    ensures a + b + c + d == a + (b + (c + d))
  {
  }

  // ---- The prompt loop ----

  class ClientUiTask {
    const ioDevice: StdStreamIODevice
    const userManager: UserManager
    var keepRunning: bool

    constructor (ioDevice: StdStreamIODevice, userManager: UserManager)
      ensures this.ioDevice == ioDevice && this.userManager == userManager && keepRunning
    {
      this.ioDevice := ioDevice;
      this.userManager := userManager;
      keepRunning := true;
    }

    /** The device, the store and the output are what `t` says, with the output behind `was`. */
    ghost predicate Shows(was: seq<string>, t: Turn)
      reads ioDevice, userManager
    {
      && ioDevice.Feed() == t.feed
      && userManager.usersByHash == t.store
      && ioDevice.output == was + t.out
    }

    method DisplaySingleMessage(prompt: string)
      modifies ioDevice`output
      ensures ioDevice.output == old(ioDevice.output) + [prompt]
    {
      ioDevice.WriteData(prompt);
    }

    method ParseUserFromInput(lenToRead: nat) returns (user: Option<User>)
      requires lenToRead >= 1
      modifies ioDevice
      ensures ioDevice.output == old(ioDevice.output)
      ensures var (line, f) := NextLine(old(ioDevice.Feed()), lenToRead);
        ioDevice.Feed() == f && user == if line == None then None else Some(ParseUser(line.value))
    {
      var line := ioDevice.ReadLineFromStream(lenToRead);
      if line == None {
        return None;
      }
      return Some(ParseUser(line.value));
    }

    /** `ok` is false when reading threw. */
    method HandleAddUser() returns (ok: bool)
      modifies ioDevice, userManager
      ensures var t := AddTurn(userManager.hash, old(ioDevice.Feed()), old(userManager.usersByHash));
        Shows(old(ioDevice.output), t) && ok == (t.status == Going)
    {
      hide USR_ADD, USR_EXIST, NextLine, ParseUser, FeedOf;
      DisplaySingleMessage(USR_ADD);
      var user := ParseUserFromInput(MAX_USR_NAME + MAX_USR_LAST);
      if user == None {
        return false;
      }
      var code := userManager.AddUser(user.value);
      if code == EXISTS {
        DisplaySingleMessage(USR_EXIST);
      }
      return true;
    }

    method HandleSendToUser() returns (ok: bool)
      modifies ioDevice, userManager
      ensures var t := SendTurn(userManager.hash, old(ioDevice.Feed()), old(userManager.usersByHash));
        Shows(old(ioDevice.output), t) && ok == (t.status == Going)
    {
      hide SEND_USR_FROM, SEND_USR_TO, USER_MSG, NO_SUCH_USER, NextLine, ParseUser, FeedOf, LinesLeft, Key;
      DisplaySingleMessage(SEND_USR_FROM);
      var userFrom := ParseUserFromInput(MAX_USR_NAME + MAX_USR_LAST);
      if userFrom == None {
        return false;
      }
      KeyOfName(userManager.hash, userFrom.value);
      var known := userManager.DoesUserExist(userFrom.value);
      if !known {
        DisplaySingleMessage(NO_SUCH_USER);
        return true;
      }
      DisplaySingleMessage(SEND_USR_TO);
      var userTo := ParseUserFromInput(MAX_USR_NAME + MAX_USR_LAST);
      if userTo == None {
        return false;
      }
      KeyOfName(userManager.hash, userTo.value);
      known := userManager.DoesUserExist(userTo.value);
      if !known {
        DisplaySingleMessage(NO_SUCH_USER);
        return true;
      }
      DisplaySingleMessage(USER_MSG);
      var text := ioDevice.ReadLineFromStream(MAX_MSG_SIZE);
      if text == None {
        return false;
      }
      userManager.SendToUser(UserMsg(userFrom.value, userTo.value, text.value));
      return true;
    }

    method HandleRecvForUser() returns (ok: bool)
      modifies ioDevice, userManager
      ensures var t := RecvTurn(userManager.hash, old(ioDevice.Feed()), old(userManager.usersByHash));
        Shows(old(ioDevice.output), t) && ok == (t.status == Going)
    {
      hide RCV_USR, NO_SUCH_USER, NO_MSG, MSG_HEADER, NextLine, ParseUser, FeedOf, Texts;
      DisplaySingleMessage(RCV_USR);
      var user := ParseUserFromInput(MAX_USR_NAME + MAX_USR_LAST);
      if user == None {
        return false;
      }
      var known := userManager.DoesUserExist(user.value);
      if !known {
        DisplaySingleMessage(NO_SUCH_USER);
        return true;
      }
      var msgs := userManager.GetUserMessages(user.value);
      if |msgs| == 0 {
        DisplaySingleMessage(NO_MSG);
        return true;
      }
      DisplaySingleMessage(MSG_HEADER);
      ShowMessages(msgs);
      Regroup(old(ioDevice.output), [RCV_USR], [MSG_HEADER], Texts(msgs));
      return true;
    }

    method ShowMessages(msgs: Box)
      modifies ioDevice`output
      ensures ioDevice.output == old(ioDevice.output) + Texts(msgs)
    {
      for i := 0 to |msgs|
        invariant old(ioDevice.output) + Texts(msgs) == ioDevice.output + Texts(msgs[i..])
      {
        DisplaySingleMessage(msgs[i].text);
      }
    }

    method HandleUserRequest(opt: UserOption) returns (ok: bool)
      modifies ioDevice, userManager, this
      ensures var t := Handle(userManager.hash, old(ioDevice.Feed()), old(userManager.usersByHash), opt);
        && Shows(old(ioDevice.output), t)
        && ok == (t.status != Broken)
        && keepRunning == (old(keepRunning) && t.status != Exited)
    {
      hide AddTurn, SendTurn, RecvTurn, GOOD_BYE, BAD_OPT;
      match opt
      case AddUser => ok := HandleAddUser();
      case SendMsg => ok := HandleSendToUser();
      case RecvAllMsgs => ok := HandleRecvForUser();
      case BadOption =>
        DisplaySingleMessage(BAD_OPT);
        ok := true;
      case ExitStore =>
        DisplaySingleMessage(GOOD_BYE);
        keepRunning := false;
        ok := true;
    }

    /** Show the menu and read an option; None when reading threw. */
    method DisplayUserOptions() returns (opt: Option<UserOption>)
      modifies ioDevice
      ensures ioDevice.output == old(ioDevice.output) + MENU
      ensures var (line, f) := NextLine(old(ioDevice.Feed()), 1);
        ioDevice.Feed() == f && opt == if line == None then None else Some(OptionOf(line.value))
    {
      hide WELCOME, ADD, SEND, RECV, EXIT, NextLine, FeedOf, OptionOf;
      DisplaySingleMessage(WELCOME);
      DisplaySingleMessage(ADD);
      DisplaySingleMessage(SEND);
      DisplaySingleMessage(RECV);
      DisplaySingleMessage(EXIT);
      var line := ioDevice.ReadLineFromStream(1);
      if line == None {
        return None;
      }
      return Some(OptionOf(line.value));
    }

    /** One pass of the loop: the menu, an option, and what it asks for. */
    method TakeOneTurn() returns (ok: bool)
      requires keepRunning
      modifies ioDevice, userManager, this
      ensures var t := TakeTurn(userManager.hash, old(ioDevice.Feed()), old(userManager.usersByHash));
        && Shows(old(ioDevice.output), t)
        && ok == (t.status != Broken)
        && keepRunning == (t.status != Exited)
    {
      hide MENU, TakeTurn, Handle, NextLine, OptionOf, FeedOf;
      TurnParts(userManager.hash, ioDevice.Feed(), userManager.usersByHash);
      var opt := DisplayUserOptions();
      if opt == None {
        return false;
      }
      ok := HandleUserRequest(opt.value);
    }

    /** The prompt loop: on any input it shows, stores and ends as the interpreter of its lines does. */
    method RunUiLoop() returns (ok: bool)
      requires keepRunning
      modifies ioDevice, userManager, this
      ensures var t := Session(userManager.hash, old(ioDevice.Feed()), old(userManager.usersByHash));
        Shows(old(ioDevice.output), t) && ok == (t.status == Exited)
    {
      hide MENU, TakeTurn, FeedOf, Session;
      ghost var hash := userManager.hash;
      ghost var goal := Session(hash, ioDevice.Feed(), userManager.usersByHash);
      ghost var was, shown, ops := ioDevice.output, [], [];
      assert goal == After([], [], goal);
      ok := true;
      while keepRunning
        invariant ok && ioDevice.output == was + shown
        invariant keepRunning ==> goal == After(shown, ops, Session(hash, ioDevice.Feed(), userManager.usersByHash))
        invariant !keepRunning ==> goal == Turn(ioDevice.Feed(), userManager.usersByHash, shown, ops, Exited)
        decreases keepRunning, LinesLeft(ioDevice.Feed())
      {
        ghost var t := TakeTurn(hash, ioDevice.Feed(), userManager.usersByHash);
        SessionGoes(hash, ioDevice.Feed(), userManager.usersByHash, shown, ops);
        assert was + (shown + t.out) == was + shown + t.out;
        ok := TakeOneTurn();
        if !ok {
          return;
        }
        shown, ops := shown + t.out, ops + t.ops;
      }
    }
  }

  // ---- What typed lines do ----

  /** A name in a line: the first name up to the first space, the last name from there up to the end or a
    null character; without a space the whole line is the first name. */
  lemma NameInLine(line: string)
    ensures var u := ParseUser(line);
      if ' ' !in line then u == User(line, "")
      else
        && ' ' !in u.first && '\0' !in u.last
        && u.first + " " + u.last <= line
        && var n := |u.first| + 1 + |u.last|; n == |line| || line[n] == '\0'
    ensures ' ' in line && '\0' !in line ==> ParseUser(line).first + " " + ParseUser(line).last == line
  {
    var k := IndexOf(line, ' ');
    if k < |line| {
      var rest := line[k + 1..];
      var m := IndexOf(rest, '\0');
      assert line[..k] + " " + rest[..m] == line[..k + 1 + m];
      assert k + 1 + m < |line| ==> line[k + 1 + m] == rest[m];
    }
  }

  function Cut(line: string, limit: nat): string {
    line[..Min(limit, |line|)]
  }

  /** The user named by line `i`, and the key of its mailbox. */
  function UserAt(f: Lines, i: nat): User
    requires i < |f.lines|
  {
    ParseUser(Cut(f.lines[i], 40))
  }

  function KeyAt(hash: Hash, f: Lines, i: nat): nat
    requires i < |f.lines|
  {
    hash(UserAt(f, i).first + UserAt(f, i).last)
  }

  /** What is left behind `n` lines. */
  function Behind(f: Lines, n: nat): Lines
    requires n <= |f.lines|
  {
    Lines(f.lines[n..], f.tail, f.good)
  }

  /** The lines that come next: at least `n`, of which the first one chooses option `c`. */
  predicate Typed(f: Lines, c: char, n: nat) {
    f.good && |f.lines| >= n >= 1 && f.lines[0] != "" && f.lines[0][0] == c
  }

  lemma NextTyped(f: Lines, limit: nat)
    requires f.good && f.lines != []
    ensures NextLine(f, limit) == (Some(Cut(f.lines[0], limit)), Behind(f, 1))
  {
  }

  lemma BehindBehind(f: Lines, m: nat, n: nat)
    requires m + n <= |f.lines|
    ensures Behind(Behind(f, m), n) == Behind(f, m + n)
    ensures n < |f.lines| - m ==> Behind(f, m).lines[n] == f.lines[m + n]
  {
  }

  lemma OptionTyped(f: Lines, c: char)
    requires Typed(f, c, 1)
    ensures NextLine(f, 1) == (Some([c]), Behind(f, 1))
  {
    assert f.lines[0][..1] == [c];
  }

  /** "2" and lines for a sender, a receiver and a text: with both users known, the text, cut to 128
    characters, goes to the end of the receiver's mailbox, from that sender; otherwise the turn stops at
    the first unknown user and changes nothing. */
  lemma SendTyped(hash: Hash, f: Lines, store: Store)
    requires Typed(f, '2', 2)
    ensures KeyAt(hash, f, 1) !in store ==>
      TakeTurn(hash, f, store) ==
        Turn(Behind(f, 2), store, [WELCOME, ADD, SEND, RECV, EXIT, SEND_USR_FROM, NO_SUCH_USER], [], Going)
    ensures KeyAt(hash, f, 1) in store && |f.lines| >= 3 && KeyAt(hash, f, 2) !in store ==>
      TakeTurn(hash, f, store) ==
        Turn(Behind(f, 3), store,
             [WELCOME, ADD, SEND, RECV, EXIT, SEND_USR_FROM, SEND_USR_TO, NO_SUCH_USER], [], Going)
    ensures KeyAt(hash, f, 1) in store && |f.lines| >= 4 && KeyAt(hash, f, 2) in store ==>
      var msg := UserMsg(UserAt(f, 1), UserAt(f, 2), Cut(f.lines[3], 128));
      var key := KeyAt(hash, f, 2);
      TakeTurn(hash, f, store) ==
        Turn(Behind(f, 4), store[key := store[key] + [msg]],
             [WELCOME, ADD, SEND, RECV, EXIT, SEND_USR_FROM, SEND_USR_TO, USER_MSG], [Send(msg)], Going)
  {
    hide WELCOME, ADD, SEND, RECV, EXIT, SEND_USR_FROM, SEND_USR_TO, USER_MSG, NO_SUCH_USER, ParseUser, NextLine;
    hide Cut, Behind, LinesLeft;
    OptionTyped(f, '2');
    NextAt(f, 1, 40);
    if |f.lines| >= 3 {
      NextAt(f, 2, 40);
    }
    if |f.lines| >= 4 {
      NextAt(f, 3, 128);
    }
  }

  lemma NextAt(f: Lines, n: nat, limit: nat)
    requires f.good && n < |f.lines|
    ensures NextLine(Behind(f, n), limit) == (Some(Cut(f.lines[n], limit)), Behind(f, n + 1))
  {
    hide NextLine;
    NextTyped(Behind(f, n), limit);
    BehindBehind(f, n, 1);
    BehindBehind(f, n, 0);
  }

  /** "1" and a line: the user it names gets a mailbox, or, if there is one, this is said. */
  lemma AddTyped(hash: Hash, f: Lines, store: Store)
    requires Typed(f, '1', 2)
    ensures TakeTurn(hash, f, store) ==
      if KeyAt(hash, f, 1) in store then
        Turn(Behind(f, 2), store, [WELCOME, ADD, SEND, RECV, EXIT, USR_ADD, USR_EXIST], [Add(UserAt(f, 1))], Going)
      else
        Turn(Behind(f, 2), store[KeyAt(hash, f, 1) := []],
             [WELCOME, ADD, SEND, RECV, EXIT, USR_ADD], [Add(UserAt(f, 1))], Going)
  {
    hide WELCOME, ADD, SEND, RECV, EXIT, USR_ADD, USR_EXIST, ParseUser, NextLine, Cut, Behind, LinesLeft;
    OptionTyped(f, '1');
    NextAt(f, 1, 40);
  }

  /** "3" and a line: the texts that wait for the user it names are shown in order, and none are left. */
  lemma RecvTyped(hash: Hash, f: Lines, store: Store)
    requires Typed(f, '3', 2)
    ensures KeyAt(hash, f, 1) !in store ==>
      TakeTurn(hash, f, store) ==
        Turn(Behind(f, 2), store, [WELCOME, ADD, SEND, RECV, EXIT, RCV_USR, NO_SUCH_USER],
             [Receive(UserAt(f, 1))], Going)
    ensures KeyAt(hash, f, 1) in store ==>
      var msgs := store[KeyAt(hash, f, 1)];
      var texts := seq(|msgs|, i requires 0 <= i < |msgs| => msgs[i].text);
      TakeTurn(hash, f, store) ==
        Turn(Behind(f, 2), store[KeyAt(hash, f, 1) := []],
             [WELCOME, ADD, SEND, RECV, EXIT, RCV_USR] + (if msgs == [] then [NO_MSG] else [MSG_HEADER] + texts),
             [Receive(UserAt(f, 1))], Going)
  {
    hide WELCOME, ADD, SEND, RECV, EXIT, RCV_USR, NO_SUCH_USER, NO_MSG, MSG_HEADER;
    hide ParseUser, NextLine, Cut, Behind, LinesLeft, Texts;
    OptionTyped(f, '3');
    NextAt(f, 1, 40);
    if KeyAt(hash, f, 1) in store {
      var msgs := store[KeyAt(hash, f, 1)];
      TextsInOrder(msgs);
      assert MENU + ([RCV_USR] + ([MSG_HEADER] + Texts(msgs))) == MENU + [RCV_USR] + ([MSG_HEADER] + Texts(msgs));
    }
  }

  lemma {:induction false} TextsInOrder(msgs: Box)
    ensures Texts(msgs) == seq(|msgs|, i requires 0 <= i < |msgs| => msgs[i].text)
  {
    if msgs == [] {
    } else {
      TextsInOrder(msgs[1..]);
    }
  }

  /** "4" says good-bye and ends the session; any other line, the empty one too, is a bad option. */
  lemma OtherTyped(hash: Hash, f: Lines, store: Store)
    requires f.good && f.lines != []
    ensures Typed(f, '4', 1) ==>
      TakeTurn(hash, f, store) == Turn(Behind(f, 1), store, [WELCOME, ADD, SEND, RECV, EXIT, GOOD_BYE], [], Exited)
    ensures f.lines[0] == "" || f.lines[0][0] !in "1234" ==>
      TakeTurn(hash, f, store) == Turn(Behind(f, 1), store, [WELCOME, ADD, SEND, RECV, EXIT, BAD_OPT], [], Going)
  {
    hide WELCOME, ADD, SEND, RECV, EXIT, GOOD_BYE, BAD_OPT, NextLine, Behind, LinesLeft, AddTurn, SendTurn, RecvTurn;
    NextTyped(f, 1);
    if f.lines[0] != "" {
      OptionTyped(f, f.lines[0][0]);
    }
  }

  /** A turn breaks off only when the input has ended, and then has put no request to the store. */
  lemma BreaksOff(hash: Hash, f: Lines, store: Store)
    ensures var t := TakeTurn(hash, f, store);
      && (t.status == Broken ==> !t.feed.good && t.store == store && t.ops == [])
      && (!f.good ==> t == Turn(f, store, [WELCOME, ADD, SEND, RECV, EXIT], [], Broken))
  {
    hide WELCOME, ADD, SEND, RECV, EXIT, ParseUser, LinesLeft, Padded;
  }

  // ---- Sessions and the store ----

  lemma NoRequests(hash: Hash, store: Store)
    ensures Run(hash, store, []).0 == store
  {
  }

  lemma ServeIsRun(hash: Hash, f: Lines, store: Store, prompts: seq<string>, op: Op)
    ensures var t := Serve(hash, f, store, prompts, op); Run(hash, store, t.ops).0 == t.store
  {
  }

  lemma HandleIsRun(hash: Hash, f: Lines, store: Store, opt: UserOption)
    ensures var t := Handle(hash, f, store, opt); Run(hash, store, t.ops).0 == t.store
  {
    hide NextLine, ParseUser, Serve, Run;
    hide USR_ADD, RCV_USR, SEND_USR_FROM, SEND_USR_TO, USER_MSG, NO_SUCH_USER, GOOD_BYE, BAD_OPT;
    NoRequests(hash, store);
    var (name, f1) := NextLine(f, MAX_USR_NAME + MAX_USR_LAST);
    if name != None {
      var (to, f2) := NextLine(f1, MAX_USR_NAME + MAX_USR_LAST);
      var (text, f3) := NextLine(f2, MAX_MSG_SIZE);
      ServeIsRun(hash, f1, store, [USR_ADD], Add(ParseUser(name.value)));
      ServeIsRun(hash, f1, store, [RCV_USR], Receive(ParseUser(name.value)));
      if to != None && text != None {
        ServeIsRun(hash, f3, store, [SEND_USR_FROM, SEND_USR_TO, USER_MSG],
          Send(UserMsg(ParseUser(name.value), ParseUser(to.value), text.value)));
      }
    }
  }

  lemma TurnIsRun(hash: Hash, f: Lines, store: Store)
    ensures var t := TakeTurn(hash, f, store); Run(hash, store, t.ops).0 == t.store
  {
    hide NextLine, Run, Handle, MENU;
    NoRequests(hash, store);
    var (line, f') := NextLine(f, 1);
    if line != None {
      HandleIsRun(hash, f', store, OptionOf(line.value));
    }
  }

  /** A session changes the store exactly as the run of the requests it made. */
  lemma {:induction false} SessionIsRun(hash: Hash, f: Lines, store: Store)
    ensures var t := Session(hash, f, store); Run(hash, store, t.ops).0 == t.store
    decreases LinesLeft(f)
  {
    var t := TakeTurn(hash, f, store);
    TurnIsRun(hash, f, store);
    if t.status == Going {
      SessionIsRun(hash, t.feed, t.store);
      RunAppend(hash, store, t.ops, Session(hash, t.feed, t.store).ops);
    }
  }

  /** Over a whole session from an empty store, for every mailbox key: what was delivered and then what
    is left in the store is what was sent, in order. */
  lemma SessionConserves(hash: Hash, input: string, key: nat)
    ensures var t := Session(hash, FeedOf(input, true), map[]);
      && |Run(hash, map[], t.ops).1| == |t.ops|
      && Delivered(hash, t.ops, Run(hash, map[], t.ops).1, key) + Pending(t.store, key) == SentTo(hash, t.ops, key)
  {
    var t := Session(hash, FeedOf(input, true), map[]);
    SessionIsRun(hash, FeedOf(input, true), map[]);
    Conservation(hash, t.ops, key);
  }
}
