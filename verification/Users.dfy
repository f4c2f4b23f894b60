/** The roles of users: the pass over tomcat-users.xml leaves them as they are. */
module Users {
  import opened Basics

  /** str.split(","). */
  function Split(s: string): seq<string>
    decreases |s|
  {
    var i := Find(s, ',');
    if i == |s| then [s] else [s[..i]] + Split(s[i + 1..])
  }

  /** ",".join. */
  function JoinCommas(parts: seq<string>): string {
    if parts == [] then []
    else if |parts| == 1 then parts[0]
    else parts[0] + ([','] + JoinCommas(parts[1..]))
  }

  /** replace_role: a new list. */
  function ReplaceRole(roles: seq<string>, old_: string, new_: string): seq<string> {
    seq(|roles|, i requires 0 <= i < |roles| => if roles[i] == old_ then new_ else roles[i])
  }

  /** What the loop over users in check_users does to the value of roles. Both lists that replace_role makes are
      dropped. */
  method MigrateRoles(value: string) returns (r: string, adminFound: bool, managerFound: bool)
    ensures r == value
    ensures adminFound <==> "admin" in Split(value)
    ensures managerFound <==> "manager" in Split(value)
  {
    var roles := Split(value);
    adminFound, managerFound := false, false;
    if "admin" in roles {
      var replaced := ReplaceRole(roles, "admin", "admin-gui");
      adminFound := true;
    }
    if "manager" in roles {
      var replaced := ReplaceRole(roles, "manager", "manager-gui");
      managerFound := true;
    }
    SplitJoins(value);
    r := JoinCommas(roles);
  }

  /** What the messages of the pass announce. */
  function AnnouncedRoles(value: string): string {
    JoinCommas(ReplaceRole(ReplaceRole(Split(value), "admin", "admin-gui"), "manager", "manager-gui"))
  }

  lemma JoinCommasCons(p: string, ps: seq<string>)
    requires ps != []
    ensures JoinCommas([p] + ps) == p + ([','] + JoinCommas(ps))
  {
    assert ([p] + ps)[1..] == ps;
  }

  lemma SplitCons(s: string, i: nat)
    requires i == Find(s, ',') < |s|
    ensures Split(s) == [s[..i]] + Split(s[i + 1..]) && s == s[..i] + ([','] + s[i + 1..]) && ',' !in s[..i]
  {
    hide Split;
    hide Find;
    SplitOnce(s, i);
    NoneBefore(s, ',');
    CutAt(s, i);
  }

  lemma NoneBefore(s: string, c: char)
    ensures c !in s[..Find(s, c)]
    ensures Find(s, c) < |s| ==> s[Find(s, c)] == c
  {
  }

  lemma SplitOnce(s: string, i: nat)
    requires i == Find(s, ',') < |s|
    ensures Split(s) == [s[..i]] + Split(s[i + 1..])
  {
  }

  lemma {:induction false} SplitJoins(s: string)
    ensures Split(s) != [] && JoinCommas(Split(s)) == s
    ensures forall p <- Split(s) :: ',' !in p
    decreases |s|
  {
    var i := Find(s, ',');
    hide Find;
    if i < |s| {
      SplitJoins(s[i + 1..]);
      SplitCons(s, i);
      hide Split;
      hide JoinCommas;
      JoinCommasCons(s[..i], Split(s[i + 1..]));
    } else {
      assert Split(s) == [s];
    }
  }

  lemma SplitOne(a: string, b: string)
    requires ',' !in a
    ensures Split(a + ([','] + b)) == [a] + Split(b)
  {
    FindIn(a, ',', b);
    hide Find;
  }

  /** A list of parts without commas is determined by the joined string. */
  lemma {:induction false} JoinSplits(parts: seq<string>)
    requires parts != [] && forall i :: 0 <= i < |parts| ==> ',' !in parts[i]
    ensures Split(JoinCommas(parts)) == parts
    decreases parts
  {
    if |parts| == 1 {
      assert parts == [parts[0]];
      assert Find(parts[0], ',') == |parts[0]|;
    } else {
      JoinSplits(parts[1..]);
      hide Split;
      SplitOne(parts[0], JoinCommas(parts[1..]));
      assert parts == [parts[0]] + parts[1..];
    }
  }

  lemma ReplaceUnchanged(roles: seq<string>, old_: string, new_: string)
    requires old_ !in roles
    ensures ReplaceRole(roles, old_, new_) == roles
  {
  }

  /** The pass does what it announces exactly for users that have neither of the two roles. */
  lemma AnnouncedIff(value: string)
    ensures AnnouncedRoles(value) == value <==> "admin" !in Split(value) && "manager" !in Split(value)
  {
    SplitJoins(value);
    var roles := Split(value);
    hide Split;
    hide JoinCommas;
    if "admin" !in roles && "manager" !in roles {
      ReplaceUnchanged(roles, "admin", "admin-gui");
      ReplaceUnchanged(roles, "manager", "manager-gui");
    } else {
      ReplacedDiffer(roles);
    }
  }

  /** Roles are separated by commas. */
  lemma RolesSplit()
    ensures Split("admin,x") == ["admin", "x"] && JoinCommas(["admin", "x"]) == "admin,x"
  {
    assert "admin,x" == "admin" + ([','] + "x");
    SplitOne("admin", "x");
    assert Split("x") == ["x"];
    SplitJoins("admin,x");
  }

  /** A user with the role admin: admin-gui is announced, and admin is written. */
  lemma AdminIsAnnounced()
    ensures AnnouncedRoles("admin") == "admin-gui" && "admin-gui" != "admin"
  {
    assert Split("admin") == ["admin"];
    assert ReplaceRole(["admin"], "admin", "admin-gui") == ["admin-gui"];
    assert |"admin-gui"| != |"manager"|;
    assert ReplaceRole(["admin-gui"], "manager", "manager-gui") == ["admin-gui"];
  }

  lemma ReplacedDiffer(roles: seq<string>)
    requires roles != [] && (forall p <- roles :: ',' !in p) && ("admin" in roles || "manager" in roles)
    ensures JoinCommas(ReplaceRole(ReplaceRole(roles, "admin", "admin-gui"), "manager", "manager-gui"))
         != JoinCommas(roles)
  {
    var r1 := ReplaceRole(roles, "admin", "admin-gui");
    var r2 := ReplaceRole(r1, "manager", "manager-gui");
    JoinSplits(r2);
    JoinSplits(roles);
    hide Split;
    hide JoinCommas;
    assert |"admin"| == 5 && |"admin-gui"| == 9 && |"manager"| == 7 && |"manager-gui"| == 11;
    var i :| 0 <= i < |roles| && (roles[i] == "admin" || roles[i] == "manager");
    assert |r2[i]| != |roles[i]|;
  }
}
