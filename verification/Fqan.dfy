/**
 From FQANs to commands on the client (src/common/fqan.cc:33-79), and from commands to a group
 and a role on the server (src/server/vomsd.cc:1329-1421).
 */
module Fqan {
  import opened Options
  import opened Strings

  // ----- the client

  /** The command for one FQAN; None where the client gives up on a capability. */
  function FqanParse(fqan: string, addCommand: bool): Option<string> {
    if fqan == "all" || fqan == "ALL" then Some(if addCommand then "A" else "")
    else if Find(fqan, "/Capability=").Some? then None
    else
      var role := Find(fqan, "/Role=");
      if role.Some? && role.value > 0 then
        Some((if addCommand then "B" else "") + fqan[..role.value] + ":" + fqan[role.value + 6..])
      else if role.Some? then Some((if addCommand then "R" else "") + fqan[6..])
      else if fqan != "" && fqan[0] == '/' then Some((if addCommand then "G" else "") + fqan)
      else Some(fqan)
  }

  predicate AllParse(fqans: seq<string>, addCommand: bool) {
    forall i :: 0 <= i < |fqans| ==> FqanParse(fqans[i], addCommand).Some?
  }

  /** The commands of a list of FQANs, in order. */
  function Commands(fqans: seq<string>, addCommand: bool): (r: seq<string>)
    requires AllParse(fqans, addCommand)
    ensures |r| == |fqans|
  {
    seq(|fqans|, i requires 0 <= i < |fqans| => FqanParse(fqans[i], addCommand).value)
  }

  /** Joins the commands of the FQANs with commas; None if the client gave up. */
  method ParseFqan(fqans: seq<string>, clean: bool) returns (parsed: Option<string>)
    ensures parsed.Some? <==> AllParse(fqans, !clean)
    ensures parsed.Some? ==> parsed.value == Join(Commands(fqans, !clean), ',')
  {
    hide FqanParse, Join, JoinedOpen;
    var text := "";
    JoinedOpenNone(|fqans|);
    for i := 0 to |fqans|
      invariant AllParse(fqans[..i], !clean)
      invariant text == JoinedOpen(Commands(fqans[..i], !clean), |fqans|)
    {
      var one := FqanParse(fqans[i], !clean);
      if one.None? {
        assert !AllParse(fqans, !clean);
        return None;
      }
      assert fqans[..i + 1] == fqans[..i] + [fqans[i]];
      JoinedOpenSnoc(Commands(fqans[..i], !clean), one.value, |fqans|);
      assert Commands(fqans[..i + 1], !clean) == Commands(fqans[..i], !clean) + [one.value];
      text := text + one.value;
      if i != |fqans| - 1 {
        text := text + ",";
      }
    }
    assert fqans[..|fqans|] == fqans;
    JoinedOpenAll(Commands(fqans, !clean));
    parsed := Some(text);
  }

  /** The first pieces of a join of n pieces, each with its comma unless it is the last. */
  function JoinedOpen(xs: seq<string>, n: nat): string
    requires |xs| <= n
  {
    Join(xs, ',') + (if 0 < |xs| < n then "," else "")
  }

  lemma {:induction false} JoinedOpenNone(n: nat)
    ensures JoinedOpen([], n) == ""
  {
  }

  lemma {:induction false} JoinedOpenSnoc(xs: seq<string>, x: string, n: nat)
    requires |xs| < n
    ensures JoinedOpen(xs + [x], n) == JoinedOpen(xs, n) + x + (if |xs| + 1 < n then "," else "")
  {
    JoinSnoc(xs, x, ',');
  }

  lemma {:induction false} JoinedOpenAll(xs: seq<string>)
    ensures JoinedOpen(xs, |xs|) == Join(xs, ',')
  {
  }

  // ----- the server

  predicate AcceptableChar(c: char) {
    '0' <= c <= '9' || 'A' <= c <= 'Z' || 'a' <= c <= 'z' || c == '_' || c == '/' || c == '-' || c == '.'
  }

  /** The string may go into an SQL query. */
  predicate Acceptable(s: string) {
    forall i :: 0 <= i < |s| ==> AcceptableChar(s[i])
  }

  predicate AcceptablePart(s: Option<string>) {
    s.Some? ==> Acceptable(s.value)
  }

  /** What the server makes of a command. Undefined stands for strcmp on a null pointer. */
  datatype Verdict =
    | Rejected
    | Accepted(comm: char, group: Option<string>, role: Option<string>)
    | Undefined

  function Checked(v: Verdict): Verdict {
    if v.Accepted? && !(AcceptablePart(v.group) && AcceptablePart(v.role)) then Rejected else v
  }

  /** A command B with a ':' is refused: the group is not cut there, and ':' is not acceptable. */
  function OldSyntax(comm: char, s: string): Verdict {
    if comm == 'R' then Accepted(comm, Some(s), Some(s))
    else if comm == 'B' && ':' in s then Rejected
    else Accepted(comm, Some(s), None)
  }

  function FqanSyntax(s: string): Verdict
    requires s != "" && s[0] == '/'
  {
    var divider := Find(s, "/Role=");
    var divider2 := IndexOfChar(s, ':');
    var v := if divider.Some? then
               if divider.value == 0 then Accepted('R', None, Some(s[6..]))
               else Accepted('B', Some(s[..divider.value]), Some(s[divider.value + 6..]))
             else if divider2 < |s| then Accepted('B', Some(s[..divider2]), Some(s[divider2 + 1..]))
             else Accepted('G', Some(s), None);
    if v.group == None || v.group == Some("/") then Undefined
    else if v.group == Some("//") then Accepted('N', None, None)
    else v
  }

  function DetermineGroupAndRole(command: string): Verdict {
    if command == "" then Rejected
    else
      var s := command[1..];
      if s == "all" then Accepted('A', None, None)
      else if s == "" || s[0] != '/' then Checked(OldSyntax(command[0], s))
      else Checked(FqanSyntax(s))
  }

  /** Whatever the command, the server accepts no group and no role unless every character is in
      the list: by their codes, three runs and the underscore. */
  lemma {:induction false} AcceptedIsAcceptable(command: string)
    ensures forall c: char :: var k := c as int;
      AcceptableChar(c) <==> 45 <= k <= 57 || 65 <= k <= 90 || k == 95 || 97 <= k <= 122
    ensures var v := DetermineGroupAndRole(command);
      v.Accepted? ==> (v.group.Some? ==> Acceptable(v.group.value)) && (v.role.Some? ==> Acceptable(v.role.value))
  {
  }

  // ----- what a user may wish for

  datatype Wish = All | Group(g: string) | GroupRole(g: string, r: string)

  predicate ValidGroup(g: string) {
    g != "" && g[0] == '/' && g != "/" && g != "//" && Acceptable(g)
  }

  predicate ValidWish(w: Wish) {
    match w
    case All => true
    case Group(g) => ValidGroup(g)
    case GroupRole(g, r) => ValidGroup(g) && Acceptable(r)
  }

  function FqanOf(w: Wish): string {
    match w
    case All => "all"
    case Group(g) => g
    case GroupRole(g, r) => g + "/Role=" + r
  }

  function CommandOf(w: Wish): string {
    match w
    case All => "A"
    case Group(g) => "G" + g
    case GroupRole(g, r) => "B" + g + ":" + r
  }

  /** How the server should understand the wish. */
  function Understood(w: Wish): Verdict {
    match w
    case All => Accepted('A', Some(""), None)
    case Group(g) => Accepted('G', Some(g), None)
    case GroupRole(g, r) => Accepted('B', Some(g), Some(r))
  }

  lemma {:induction false} NoEquals(s: string, pat: string)
    requires '=' in pat && '=' !in s
    ensures Find(s, pat).None?
  {
    var k :| 0 <= k < |pat| && pat[k] == '=';
    forall i: nat ensures !OccursAt(s, pat, i) {
      NotThere(s, pat, i, k);
    }
  }

  lemma {:induction false} AcceptableHasNo(s: string, c: char)
    requires Acceptable(s) && !AcceptableChar(c)
    ensures c !in s
  {
  }

  lemma {:induction false} RoleFound(g: string, r: string)
    requires Acceptable(g) && Acceptable(r)
    ensures Find(g + "/Role=" + r, "/Role=") == Some(|g|)
    ensures Find(g + "/Role=" + r, "/Capability=").None?
  {
    var s := g + "/Role=" + r;
    assert s[|g|..] == "/Role=" + r;
    assert s[|g| + 5] == '=' && forall i :: 0 <= i < |s| && s[i] == '=' ==> i == |g| + 5 by {
      forall i | 0 <= i < |s| && i != |g| + 5 ensures s[i] != '=' {
        if i < |g| {
          assert s[i] == g[i];
        } else if i >= |g| + 6 {
          assert s[i] == r[i - |g| - 6];
        } else {
          assert s[i] == "/Role="[i - |g|];
        }
      }
    }
    forall j: nat | j < |g| ensures !OccursAt(s, "/Role=", j) {
      NotThere(s, "/Role=", j, 5);
    }
    FindIs(s, "/Role=", |g|);
    forall j: nat ensures !OccursAt(s, "/Capability=", j) {
      NotThere(s, "/Capability=", j, if j + 11 == |g| + 5 then 10 else 11);
    }
  }

  /** The client turns the FQAN of a valid wish into the wish's command, or without commands into
      what stands behind the letter. */
  lemma {:induction false} ClientCommand(w: Wish)
    requires ValidWish(w)
    ensures FqanParse(FqanOf(w), true) == Some(CommandOf(w))
    ensures CommandOf(w) != "" && FqanParse(FqanOf(w), false) == Some(CommandOf(w)[1..])
    ensures CommandOf(w) != "" && ',' !in CommandOf(w)
  {
    hide FqanParse, Acceptable;
    match w {
      case All => AllCommand();
      case Group(g) => GroupCommand(g);
      case GroupRole(g, r) => RoleCommand(g, r);
    }
  }

  lemma {:induction false} AllCommand()
    ensures FqanParse("all", true) == Some("A") && FqanParse("all", false) == Some("A"[1..])
  {
    assert "A"[1..] == "";
  }

  lemma {:induction false} GroupCommand(g: string)
    requires ValidGroup(g)
    ensures FqanParse(g, true) == Some("G" + g) && FqanParse(g, false) == Some(("G" + g)[1..])
    ensures ',' !in "G" + g
  {
    AcceptableHasNo(g, '=');
    AcceptableHasNo(g, ',');
    NoEquals(g, "/Role=");
    NoEquals(g, "/Capability=");
    assert ("G" + g)[1..] == g == "" + g;
  }

  lemma {:induction false} RoleCommand(g: string, r: string)
    requires ValidGroup(g) && Acceptable(r)
    ensures var s, t := g + "/Role=" + r, "B" + g + ":" + r;
      FqanParse(s, true) == Some(t) && FqanParse(s, false) == Some(t[1..]) && ',' !in t
  {
    hide FqanParse, Find;
    AcceptableHasNo(g, ',');
    AcceptableHasNo(r, ',');
    RoleFound(g, r);
    RoleIsCut(g, r, true);
    RoleIsCut(g, r, false);
    RoleCommandText(g, r);
  }

  lemma {:induction false} RoleCommandText(g: string, r: string)
    ensures var t := "B" + g + ":" + r;
      t == "B" + (g + ":" + r) && t[1..] == "" + (g + ":" + r) && (',' !in g && ',' !in r ==> ',' !in t)
  {
  }

  /** What the client makes of any other text: it gives up exactly on a capability, cuts a role at
      the first mention, takes text that starts with a slash for a group, and leaves the rest. */
  lemma {:induction false} ClientCommandForms(g: string, r: string, addCommand: bool)
    requires g != "all" && g != "ALL"
    ensures FqanParse(g, addCommand).None? <==> exists i: nat :: OccursAt(g, "/Capability=", i)
    ensures (forall i: nat :: !OccursAt(g, "/Capability=", i) && !OccursAt(g, "/Role=", i)) ==>
      FqanParse(g, addCommand) == Some(if addCommand && "/" <= g then "G" + g else g)
    ensures var s := g + "/Role=" + r;
      (forall i: nat :: !OccursAt(s, "/Capability=", i)) && (forall i: nat :: i < |g| ==> !OccursAt(s, "/Role=", i)) ==>
        FqanParse(s, addCommand) == Some(if g == "" then (if addCommand then "R" else "") + r
                                         else (if addCommand then "B" else "") + (g + ":" + r))
  {
    RoleIsCut(g, r, addCommand);
    if (forall i: nat :: !OccursAt(g, "/Capability=", i) && !OccursAt(g, "/Role=", i)) {
      assert "/" <= g <==> g != "" && g[0] == '/';
      assert "" + g == g;
    }
  }

  lemma {:induction false} RoleIsCut(g: string, r: string, addCommand: bool)
    ensures var s := g + "/Role=" + r;
      (forall i: nat :: !OccursAt(s, "/Capability=", i)) && (forall i: nat :: i < |g| ==> !OccursAt(s, "/Role=", i)) ==>
        FqanParse(s, addCommand) == Some(if g == "" then (if addCommand then "R" else "") + r
                                         else (if addCommand then "B" else "") + (g + ":" + r))
  {
    var s := g + "/Role=" + r;
    if (forall i: nat :: !OccursAt(s, "/Capability=", i)) && (forall i: nat :: i < |g| ==> !OccursAt(s, "/Role=", i)) {
      assert s[|g|..] == "/Role=" + r && s[|g|..][..6] == "/Role=";
      FindIs(s, "/Role=", |g|);
      assert s[..|g|] == g && s[|g| + 6..] == r;
      assert |s| >= 6 && s != "all" && s != "ALL";
      var b := if addCommand then "B" else "";
      assert b + g + ":" + r == b + (g + ":" + r);
    }
  }

  /** The server understands the command as it was meant. */
  lemma {:induction false} ServerUnderstands(w: Wish)
    requires ValidWish(w)
    ensures DetermineGroupAndRole(CommandOf(w)) == Understood(w)
  {
    match w {
      case All =>
      case Group(g) =>
        var command := "G" + g;
        assert command[1..] == g;
        AcceptableHasNo(g, '=');
        AcceptableHasNo(g, ':');
        NoEquals(g, "/Role=");
        IndexOfCharIs(g, ':', |g|);
      case GroupRole(g, r) =>
        var command := "B" + g + ":" + r;
        var s := g + ":" + r;
        assert command[1..] == s;
        AcceptableHasNo(g, '=');
        AcceptableHasNo(r, '=');
        AcceptableHasNo(g, ':');
        NoEquals(s, "/Role=");
        IndexOfCharIs(s, ':', |g|);
        assert s[..|g|] == g && s[|g| + 1..] == r;
    }
  }

  /** The other commands the server takes: those for everything and for nothing, a role in FQAN
      form, and text without a slash in front, which is its own group. */
  lemma {:induction false} OtherCommands(comm: char, g: string, r: string)
    ensures DetermineGroupAndRole([comm] + "all") == Accepted('A', None, None)
    ensures DetermineGroupAndRole([comm] + "//") == Accepted('N', None, None)
    ensures ValidGroup(g) && Acceptable(r) ==>
      DetermineGroupAndRole([comm] + (g + "/Role=" + r)) == Accepted('B', Some(g), Some(r))
    ensures g != "all" && (g == "" || g[0] != '/') ==>
      DetermineGroupAndRole([comm] + g)
      == if Acceptable(g) then Accepted(comm, Some(g), if comm == 'R' then Some(g) else None) else Rejected
  {
    assert ([comm] + "all")[1..] == "all";
    NothingAsked(comm);
    if ValidGroup(g) && Acceptable(r) {
      RoleInCommand(comm, g, r);
    }
    if g != "all" && (g == "" || g[0] != '/') {
      assert ([comm] + g)[1..] == g;
      assert ':' in g ==> !Acceptable(g);
    }
  }

  lemma {:induction false} NothingAsked(comm: char)
    ensures DetermineGroupAndRole([comm] + "//") == Accepted('N', None, None)
  {
    var s := "//";
    assert ([comm] + s)[1..] == s;
    NoEquals(s, "/Role=");
    IndexOfCharIs(s, ':', 2);
  }

  lemma {:induction false} RoleInCommand(comm: char, g: string, r: string)
    requires ValidGroup(g) && Acceptable(r)
    ensures DetermineGroupAndRole([comm] + (g + "/Role=" + r)) == Accepted('B', Some(g), Some(r))
  {
    var s := g + "/Role=" + r;
    assert ([comm] + s)[1..] == s;
    RoleFound(g, r);
    assert s[..|g|] == g && s[|g| + 6..] == r && s[0] == '/' && |s| > 3;
  }
}
