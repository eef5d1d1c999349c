/**
 * `login`, `logout` and its inner `doLogout`: the decisions the script takes
 * about which account to log in or out, what to ask the user, and how many
 * requests to send. The network, the terminal and `ps` are replaced by the
 * answers they give, passed in as parameters (`online` for `checkInternet()`
 * before logging in, `typedUser` for `input(...)`, `status` for the status
 * code of the login POST, `None` when `requests.post` raises, and so on).
 */
module Session {
  import opened Wrappers
  import opened Billing
  import opened ProcessGuard

  /** The values the script ships with in its `username` and `password` lines. */
  const DefaultUser: string := "xxxx"
  const DefaultPassword: string := "****"

  /** `username == "xxxx" or username == ""`: no account configured. */
  predicate Unconfigured(username: string) {
    username == DefaultUser || username == ""
  }

  /** `password == "****" or password == ""`: the password must be typed. */
  predicate PasswordUnset(password: string) {
    password == DefaultPassword || password == ""
  }

  /** `if userCheck:` the `--user` option was given and is not empty. */
  predicate Given(userCheck: Option<string>) {
    userCheck.Some? && userCheck.value != ""
  }

  /** The questions the script can put to the user while logging in. */
  datatype Prompt = AskUser | AskOverride | AskPassword

  datatype Credentials = Credentials(username: string, password: string)

  datatype LoginOutcome =
    | AlreadyOnline   // `checkInternet()` held: only the account status is shown
    | Mismatch        // the typed account differs from `--user`: `sys.exit()`
    | Declined        // the configured account differs from `--user` and the switch was refused
    | PostRaised      // `requests.post` raised, so `cont` is unbound and the comparison raises `NameError`
    | Failed          // status other than 200, or still offline afterwards
    | Succeeded       // status 200 and online afterwards

  datatype LogoutOutcome =
    | NotConnected    // no user information from the portal: `sys.exit()`
    | Skipped         // the account is not the one asked for, or the user said no
    | Kept            // own processes were listed and the user chose not to go on
    | LoggedOut       // a probe after one of the logout requests found the network gone
    | StillOnline     // three requests and the network still answers

  /** The module-level `username` and `password` of the script, which `login` rebinds. */
  class Settings {
    var username: string
    var password: string

    constructor (username: string, password: string)
      ensures this.username == username && this.password == password
    {
      this.username := username;
      this.password := password;
    }

    /**
     * `login(userCheck)`. Returns the outcome, the prompts shown in order, and
     * the credentials sent with the login POST, if one was sent.
     */
    method Login(userCheck: Option<string>, online: bool, typedUser: string, answer: string,
                 typedPassword: string, status: Option<int>, onlineAfter: bool)
      returns (outcome: LoginOutcome, prompts: seq<Prompt>, posted: Option<Credentials>)
      modifies this
      // Already online: nothing asked, nothing sent, nothing changed.
      ensures outcome == AlreadyOnline <==> online
      ensures online ==> prompts == [] && posted == None
      ensures online ==> username == old(username) && password == old(password)
      // The account name is asked for exactly when none is configured, and first.
      ensures AskUser in prompts <==> !online && Unconfigured(old(username))
      ensures AskUser in prompts ==> prompts[0] == AskUser && username == typedUser
      ensures AskOverride in prompts <==> !online && !Unconfigured(old(username)) && Given(userCheck) && userCheck.value != old(username)
      ensures |prompts| <= 2 && (AskPassword in prompts ==> prompts[|prompts| - 1] == AskPassword)
      ensures forall i, j | 0 <= i < j < |prompts| :: prompts[i] != prompts[j]
      // The two early exits.
      ensures outcome == Mismatch <==> !online && Unconfigured(old(username)) && Given(userCheck) && userCheck.value != typedUser
      ensures outcome == Declined <==> AskOverride in prompts && answer != "y"
      ensures outcome == Declined ==> username == old(username)
      ensures (outcome == Mismatch || outcome == Declined) ==> posted == None && AskPassword !in prompts && password == old(password)
      // Past the checks, the POST carries the (new) globals.
      ensures posted.Some? <==> outcome in {PostRaised, Failed, Succeeded}
      ensures posted.Some? ==> posted == Some(Credentials(username, password))
      ensures posted.Some? && Given(userCheck) ==> username == userCheck.value
      ensures posted.Some? && !Given(userCheck) ==> username == if Unconfigured(old(username)) then typedUser else old(username)
      // The password is typed when unset, or when switching accounts reset it.
      ensures AskPassword in prompts <==> posted.Some? && (PasswordUnset(old(password)) || AskOverride in prompts)
      ensures AskPassword in prompts ==> password == typedPassword
      ensures posted.Some? && AskPassword !in prompts ==> password == old(password)
      // How the POST ends.
      ensures outcome == PostRaised <==> posted.Some? && status.None?
      ensures outcome == Succeeded <==> posted.Some? && status == Some(200) && onlineAfter
    {
      prompts := [];
      posted := None;
      if online {
        outcome := AlreadyOnline;
        return;
      }
      if Unconfigured(username) {
        username := typedUser;
        prompts := [AskUser];
        if Given(userCheck) && userCheck.value != username {
          outcome := Mismatch;
          return;
        }
      } else if Given(userCheck) && userCheck.value != username {
        prompts := [AskOverride];
        if answer == "y" {
          username := userCheck.value;
          password := DefaultPassword;
        } else {
          outcome := Declined;
          return;
        }
      }
      if PasswordUnset(password) {
        password := typedPassword;
        prompts := prompts + [AskPassword];
      }
      posted := Some(Credentials(username, password));
      match status
      case None =>
        outcome := PostRaised;
      case Some(code) =>
        outcome := if code == 200 && onlineAfter then Succeeded else Failed;
    }

    /**
     * `logout(userCheck)`: `info` is what `getUserInfo()` returned, `confirm`
     * the answer to "log out this account?", and the remaining parameters
     * are passed on to `doLogout`. Returns the outcome, whether that
     * confirmation was asked, whether `doLogout` asked to go on despite own
     * processes, and the number of logout requests sent.
     */
    method Logout(userCheck: Option<string>, info: Option<UserInfo>, confirm: string,
                  loginName: string, processes: seq<string>, proceed: string, probes: seq<bool>)
      returns (outcome: LogoutOutcome, confirmAsked: bool, processAsked: bool, posts: nat)
      requires |processes| >= 1 && AllParsable(processes[1..]) && |probes| >= 3
      ensures info.None? ==> outcome == NotConnected && !confirmAsked && posts == 0
      ensures outcome == NotConnected ==> info.None?
      // With `--user` nothing is asked: the logged-in id must match it.
      ensures Given(userCheck) ==> !confirmAsked
      ensures confirmAsked <==> info.Some? && !Given(userCheck) && (Unconfigured(username) || username != info.value.userId)
      ensures outcome == Skipped <==>
        info.Some? && (if Given(userCheck) then userCheck.value != info.value.userId else confirmAsked && confirm != "y")
      ensures outcome in {NotConnected, Skipped} ==> posts == 0 && !processAsked
      // Otherwise `doLogout` runs, with everything it promises.
      ensures outcome !in {NotConnected, Skipped} ==> LogoutRun(loginName, processes, proceed, probes, outcome, processAsked, posts)
      // An account is only logged out unasked when it is the one named.
      ensures posts > 0 && !confirmAsked ==>
        info.Some? && ((Given(userCheck) && userCheck.value == info.value.userId) || (!Unconfigured(username) && username == info.value.userId))
      ensures posts <= 3
      ensures outcome == Kept ==> info.Some? && HasConflicts(loginName, processes) && proceed != "y"
      ensures outcome == LoggedOut ==> exists k | 0 <= k < 3 :: !probes[k]
    {
      posts := 0;
      confirmAsked := false;
      processAsked := false;
      if info.None? {
        outcome := NotConnected;
        return;
      }
      var userId := info.value.userId;
      if Given(userCheck) {
        if userCheck.value == userId {
          outcome, processAsked, posts := DoLogout(loginName, processes, proceed, probes);
        } else {
          outcome := Skipped;
        }
        return;
      }
      if Unconfigured(username) || username != userId {
        confirmAsked := true;
        if confirm == "y" {
          outcome, processAsked, posts := DoLogout(loginName, processes, proceed, probes);
        } else {
          outcome := Skipped;
        }
      } else {
        outcome, processAsked, posts := DoLogout(loginName, processes, proceed, probes);
      }
    }
  }

  /**
   * What a run of `doLogout` does: it asks whether to go on exactly when
   * there are conflicts, and sends nothing unless the answer is 'y';
   * otherwise it sends requests until a probe finds the network gone, three
   * at most, and has logged out exactly when one of the three probes does.
   */
  ghost predicate LogoutRun(loginName: string, processes: seq<string>, proceed: string, probes: seq<bool>,
                            outcome: LogoutOutcome, asked: bool, posts: nat)
    requires |processes| >= 1 && AllParsable(processes[1..]) && |probes| >= 3
  {
    && (asked <==> HasConflicts(loginName, processes))
    && outcome in {Kept, LoggedOut, StillOnline}
    && (outcome == Kept <==> asked && proceed != "y")
    && (outcome == Kept ==> posts == 0)
    && (outcome == LoggedOut <==> outcome != Kept && exists k | 0 <= k < 3 :: !probes[k])
    // Requests stop at the first probe that finds the network gone.
    && (outcome == LoggedOut ==> 1 <= posts <= 3 && !probes[posts - 1] && forall k | 0 <= k < posts - 1 :: probes[k])
    && (outcome == StillOnline ==> posts == 3 && forall k | 0 <= k < 3 :: probes[k])
  }

  /**
   * `doLogout`: check for own processes (asking whether to go on when there
   * are any), then send the logout request up to three times, probing the
   * network after each; `probes[k]` is what `checkInternet()` answers after
   * request `k + 1`. Returns the outcome, whether the question was asked,
   * and the number of requests sent.
   */
  method DoLogout(loginName: string, processes: seq<string>, proceed: string, probes: seq<bool>)
    returns (outcome: LogoutOutcome, asked: bool, posts: nat)
    requires |processes| >= 1 && AllParsable(processes[1..]) && |probes| >= 3
    ensures LogoutRun(loginName, processes, proceed, probes, outcome, asked, posts)
  {
    var conflict, tally := CheckProcess(loginName, processes);
    asked := conflict;
    posts := 0;
    if conflict && proceed != "y" {
      outcome := Kept;
      return;
    }
    while posts < 3
      invariant 0 <= posts <= 3
      invariant forall k | 0 <= k < posts :: probes[k]
    {
      posts := posts + 1;
      if !probes[posts - 1] {
        outcome := LoggedOut;
        return;
      }
    }
    outcome := StillOnline;
  }
}
