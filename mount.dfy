/** pygmount/utils/mount.py: the per-share preparation and command formatting
    of `MountSmbShares.run` (mount-point resolution, credential choice, the
    `umount` and `mount -t cifs` command lines and the masked log line). */
module Mount {
  import opened Wrappers
  import opened Strings

  /** One share as `read_config` builds it: option name to value. */
  type Share = map<string, string>

  /** The password database as `os.path.expanduser` consults it: the home
      directory of a user name, None for an unknown user. The empty name
      stands for the invoking user (`$HOME`). */
  type HomeDirs = string -> Option<string>

  /** `os.path.expanduser` as `run` calls it; `ExpandUser` below is what it computes. */
  type ExpandUserFn = string -> string

  // ---------------------------------------------------------------------------
  // `%`-formatting with a mapping

  /** A piece of a `%(key)s` template: literal text or a named field. */
  datatype Piece = Text(text: string) | Field(key: string)

  type Template = seq<Piece>

  /** Every field the template names is present in `values`. */
  predicate HasFields(t: Template, values: map<string, string>)
  {
    forall i :: 0 <= i < |t| && t[i].Field? ==> t[i].key in values
  }

  /** `t % values`: the fields are looked up left to right and the first missing
      one raises KeyError. */
  function Format(t: Template, values: map<string, string>): (r: Result<string>)
    ensures r.Success? <==> HasFields(t, values)
    ensures r.Failure? ==> r.error.KeyError? && Field(r.error.key) in t && r.error.key !in values
  {
    if t == [] then Success("")
    else
      var front, last := Format(t[..|t| - 1], values), t[|t| - 1];
      if front.Failure? then front
      else if last.Text? then Success(front.value + last.text)
      else if last.key !in values then Failure(KeyError(last.key))
      else Success(front.value + values[last.key])
  }

  /** The KeyError names the first field that is missing. */
  lemma {:induction false} FormatFirstMissing(t: Template, values: map<string, string>, i: int)
    requires 0 <= i < |t| && t[i].Field? && t[i].key !in values && HasFields(t[..i], values)
    ensures Format(t, values) == Failure(KeyError(t[i].key))
  {
    var front := t[..|t| - 1];
    if i < |t| - 1 {
      assert front[..i] == t[..i];
      FormatFirstMissing(front, values, i);
    } else {
      assert front == t[..i];
    }
  }

  /** `cmd_umount`. */
  const UMOUNT_TEMPLATE: Template := [Text("umount "), Field("mountpoint")]

  /** `cmd_mount`. */
  const MOUNT_TEMPLATE: Template :=
    [Text("mount -t cifs //"), Field("hostname"), Text("/"), Field("share"), Text(" "), Field("mountpoint"),
     Text(" -o username=\""), Field("domain_username"), Text("\",uid="), Field("host_username"),
     Text(",password=\""), Field("domain_password"), Text("\"")]

  /** The text that the log line keeps of a mount command, and the mask put in place of the password. */
  const PASSWORD_PLACEHOLDER: string := ",password="
  const PASSWORD_MASK: string := "******\""

  /** The keys the mount command reads. */
  predicate HasMountFields(s: Share)
  {
    && "hostname" in s && "share" in s && "mountpoint" in s
    && "domain_username" in s && "host_username" in s && "domain_password" in s
  }

  /** Everything of a mount command in front of `,password=`. */
  function MountPrefix(s: Share): (prefix: string)
    requires HasMountFields(s)
  {
    "mount -t cifs //" + s["hostname"] + "/" + s["share"] + " " + s["mountpoint"]
    + " -o username=\"" + s["domain_username"] + "\",uid=" + s["host_username"]
  }

  lemma FormatText(t: Template, x: string, values: map<string, string>)
    requires Format(t, values).Success?
    ensures Format(t + [Text(x)], values) == Success(Format(t, values).value + x)
  {
    assert (t + [Text(x)])[..|t|] == t;
  }

  lemma FormatField(t: Template, k: string, values: map<string, string>)
    requires k in values && Format(t, values).Success?
    ensures Format(t + [Field(k)], values) == Success(Format(t, values).value + values[k])
  {
    assert (t + [Field(k)])[..|t|] == t;
  }

  /** The mount command renders the share's fields in template order. */
  lemma MountCommandOf(s: Share)
    requires HasMountFields(s)
    ensures Format(MOUNT_TEMPLATE, s) == Success(MountPrefix(s) + PASSWORD_PLACEHOLDER + "\"" + s["domain_password"] + "\"")
  {
    var t0: Template := [];
    assert Format(t0, s) == Success("");
    FormatText(t0, "mount -t cifs //", s);
    assert "" + "mount -t cifs //" == "mount -t cifs //";
    var t1 := t0 + [Text("mount -t cifs //")];
    FormatField(t1, "hostname", s);
    var t2 := t1 + [Field("hostname")];
    FormatText(t2, "/", s);
    var t3 := t2 + [Text("/")];
    FormatField(t3, "share", s);
    var t4 := t3 + [Field("share")];
    FormatText(t4, " ", s);
    var t5 := t4 + [Text(" ")];
    FormatField(t5, "mountpoint", s);
    var t6 := t5 + [Field("mountpoint")];
    FormatText(t6, " -o username=\"", s);
    var t7 := t6 + [Text(" -o username=\"")];
    FormatField(t7, "domain_username", s);
    var t8 := t7 + [Field("domain_username")];
    FormatText(t8, "\",uid=", s);
    var t9 := t8 + [Text("\",uid=")];
    FormatField(t9, "host_username", s);
    var t10 := t9 + [Field("host_username")];
    assert Format(t10, s) == Success(MountPrefix(s));
    FormatText(t10, ",password=\"", s);
    var t11 := t10 + [Text(",password=\"")];
    FormatField(t11, "domain_password", s);
    var t12 := t11 + [Field("domain_password")];
    FormatText(t12, "\"", s);
    var t13 := t12 + [Text("\"")];
    assert t13 == MOUNT_TEMPLATE;
    assert MountPrefix(s) + ",password=\"" == MountPrefix(s) + PASSWORD_PLACEHOLDER + "\"";
  }

  /** Once the keys `run` writes are there, the mount command fails exactly when
      the host name or the share name is missing, on the first of them. */
  lemma MountCommandFails(s: Share)
    requires "mountpoint" in s && "domain_username" in s && "host_username" in s && "domain_password" in s
    ensures Format(MOUNT_TEMPLATE, s).Failure? <==> "hostname" !in s || "share" !in s
    ensures Format(MOUNT_TEMPLATE, s).Failure? ==>
              Format(MOUNT_TEMPLATE, s).error == KeyError(if "hostname" !in s then "hostname" else "share")
  {
    var t := MOUNT_TEMPLATE;
    if "hostname" in s && "share" in s {
      MountCommandOf(s);
    } else {
      if "hostname" !in s {
        assert t[..1] == [Text("mount -t cifs //")];
        FormatFirstMissing(t, s, 1);
      } else {
        assert t[..3] == [Text("mount -t cifs //"), Field("hostname"), Text("/")];
        FormatFirstMissing(t, s, 3);
      }
    }
  }

  lemma UmountCommandOf(s: Share)
    requires "mountpoint" in s
    ensures Format(UMOUNT_TEMPLATE, s) == Success("umount " + s["mountpoint"])
  {
    var t0: Template := [];
    assert Format(t0, s) == Success("");
    FormatText(t0, "umount ", s);
    assert "" + "umount " == "umount ";
    FormatField(t0 + [Text("umount ")], "mountpoint", s);
    assert t0 + [Text("umount ")] + [Field("mountpoint")] == UMOUNT_TEMPLATE;
  }

  /** The verbose log line of a mount command: the command up to the first
      `,password=`, then the mask. */
  function MountLogLine(command: string): (line: string)
  {
    "Mount command: " + SplitHead(command, PASSWORD_PLACEHOLDER) + PASSWORD_PLACEHOLDER + PASSWORD_MASK
  }

  /** The logged mount command is the same whatever the domain password. */
  lemma MaskHidesPassword(s: Share, password: string, other: string)
    requires HasMountFields(s)
    ensures var a, b := s["domain_password" := password], s["domain_password" := other];
            MountLogLine(Format(MOUNT_TEMPLATE, a).value) == MountLogLine(Format(MOUNT_TEMPLATE, b).value)
  {
    var a, b := s["domain_password" := password], s["domain_password" := other];
    assert MountPrefix(a) == MountPrefix(s) == MountPrefix(b);
    MasksTail(s, password);
    MasksTail(s, other);
  }

  lemma MasksTail(s: Share, password: string)
    requires HasMountFields(s)
    ensures var a := s["domain_password" := password];
            MountLogLine(Format(MOUNT_TEMPLATE, a).value) == MountLogLine(MountPrefix(s) + PASSWORD_PLACEHOLDER)
  {
    var a := s["domain_password" := password];
    var p, tail := MountPrefix(a), "\"" + password + "\"";
    MountCommandOf(a);
    assert p + PASSWORD_PLACEHOLDER + "\"" + a["domain_password"] + "\"" == p + PASSWORD_PLACEHOLDER + tail;
    SplitHeadIgnoresTail(p, PASSWORD_PLACEHOLDER, tail);
    assert p == MountPrefix(s);
  }

  /** When the fields in front of the password hold no `,password=`, the log line
      is that front part followed by the mask. */
  lemma MaskExact(s: Share)
    requires HasMountFields(s)
    requires forall j :: !OccursAt(MountPrefix(s), PASSWORD_PLACEHOLDER, j)
    ensures MountLogLine(Format(MOUNT_TEMPLATE, s).value)
            == "Mount command: " + MountPrefix(s) + PASSWORD_PLACEHOLDER + PASSWORD_MASK
  {
    var m := PASSWORD_PLACEHOLDER;
    MountCommandOf(s);
    assert m[0] == ',' && m[1..] == "password=";
    SplitHeadAtMarker(MountPrefix(s), m, "\"" + s["domain_password"] + "\"");
    assert MountPrefix(s) + m + "\"" + s["domain_password"] + "\"" == MountPrefix(s) + m + ("\"" + s["domain_password"] + "\"");
  }

  // ---------------------------------------------------------------------------
  // Mount points

  /** `os.path.expanduser` on a path: `~name` up to the first slash is replaced
      by that user's home without trailing slashes; an unknown user leaves the
      path as it is. */
  function ExpandUser(homes: HomeDirs, path: string): (expanded: string)
  {
    if !StartsWith(path, "~") then path
    else
      var name := SplitOnce(path[1..], '/')[0];
      var tail := path[1 + |name|..];
      match homes(name)
      case None => path
      case Some(home) =>
        var expanded := RStrip(home, '/') + tail;
        if expanded == "" then "/" else expanded
  }

  /** `~user/rest` for a user name without a slash expands to the user's home
      and `rest`, or stays as it is for an unknown user. */
  lemma ExpandUserHome(homes: HomeDirs, user: string, rest: string)
    requires '/' !in user
    ensures homes(user).None? ==> ExpandUser(homes, "~" + user + "/" + rest) == "~" + user + "/" + rest
    ensures homes(user).Some? ==>
              ExpandUser(homes, "~" + user + "/" + rest) == RStrip(homes(user).value, '/') + "/" + rest
  {
    var path := "~" + user + "/" + rest;
    assert path[1..] == user + ['/'] + rest;
    assert StartsWith(path, "~");
    IndexOfAfter(user, '/', rest);
    assert (user + ['/'] + rest)[..|user|] == user;
    assert SplitOnce(path[1..], '/')[0] == user;
    var tail := path[1 + |user|..];
    assert tail == "/" + rest;
    if homes(user).Some? {
      var expanded := RStrip(homes(user).value, '/') + tail;
      assert expanded != "";
      assert ExpandUser(homes, path) == expanded;
    }
  }

  /** A home directory that is absolute gives an absolute expansion. */
  lemma ExpandUserAbsolute(homes: HomeDirs, user: string, rest: string)
    requires '/' !in user && homes(user).Some? && StartsWith(homes(user).value, "/")
    ensures StartsWith(ExpandUser(homes, "~" + user + "/" + rest), "/")
  {
    ExpandUserHome(homes, user, rest);
    var stripped := RStrip(homes(user).value, '/');
    if stripped != [] {
      assert stripped[0] == homes(user).value[0];
    }
  }

  /** `expand` is POSIX `os.path.expanduser` over the password database `homes`. */
  ghost predicate PosixExpandUser(expand: ExpandUserFn, homes: HomeDirs)
  {
    forall path {:trigger ExpandUser(homes, path)} :: expand(path) == ExpandUser(homes, path)
  }

  /** What `run` knows when it prepares the shares. */
  datatype Session = Session(hostUsername: string, domainUsername: string, domainPassword: string,
                             expandUser: ExpandUserFn, verbose: bool)

  /** `share.get(key, default)`. */
  function Get(s: Share, key: string, default: string): (v: string)
  {
    if key in s then s[key] else default
  }

  /** The share's local mount point: `~host_user/hostname/share` when it has
      none, `~host_user/mountpoint` when it is relative, itself when absolute. */
  function ResolveMountpoint(s: Share, hostUsername: string, expandUser: ExpandUserFn): (r: Result<string>)
    ensures r.Failure? <==> "mountpoint" !in s && ("hostname" !in s || "share" !in s)
    ensures r.Failure? ==> r.error == KeyError(if "hostname" !in s then "hostname" else "share")
    ensures "mountpoint" in s && StartsWith(s["mountpoint"], "/") ==> r == Success(s["mountpoint"])
  {
    if "mountpoint" !in s then
      if "hostname" !in s then Failure(KeyError("hostname"))
      else if "share" !in s then Failure(KeyError("share"))
      else Success(expandUser("~" + hostUsername + "/" + (s["hostname"] + "/" + s["share"])))
    else if !StartsWith(s["mountpoint"], "/") then
      Success(expandUser("~" + hostUsername + "/" + s["mountpoint"]))
    else Success(s["mountpoint"])
  }

  /** The keys `run` writes into every share. */
  const WRITTEN_KEYS: set<string> := {"mountpoint", "host_username", "domain_username", "domain_password"}

  /** The share as `run` leaves it before formatting the commands: the resolved
      mount point, the host user and the credentials (the share's own `username`
      and `password` win over the ones typed in). */
  function PrepareShare(s: Share, session: Session): (r: Result<Share>)
    ensures r.Failure? <==> "mountpoint" !in s && ("hostname" !in s || "share" !in s)
    ensures r.Failure? ==> r.error == KeyError(if "hostname" !in s then "hostname" else "share")
    ensures r.Success? ==>
              && r.value.Keys == s.Keys + WRITTEN_KEYS
              && r.value["mountpoint"] == ResolveMountpoint(s, session.hostUsername, session.expandUser).value
              && r.value["host_username"] == session.hostUsername
              && r.value["domain_username"] == Get(s, "username", session.domainUsername)
              && r.value["domain_password"] == Get(s, "password", session.domainPassword)
              && (forall k :: k in s && k !in WRITTEN_KEYS ==> r.value[k] == s[k])
  {
    var mountpoint := ResolveMountpoint(s, session.hostUsername, session.expandUser);
    if mountpoint.Failure? then Failure(mountpoint.error)
    else
      Success(s["mountpoint" := mountpoint.value]
               ["host_username" := session.hostUsername]
               ["domain_username" := Get(s, "username", session.domainUsername)]
               ["domain_password" := Get(s, "password", session.domainPassword)])
  }

  /** With an absolute home directory for the host user, every resolved mount
      point is absolute. */
  lemma MountpointAbsolute(s: Share, hostUsername: string, expandUser: ExpandUserFn, homes: HomeDirs)
    requires PosixExpandUser(expandUser, homes) && '/' !in hostUsername
    requires homes(hostUsername).Some? && StartsWith(homes(hostUsername).value, "/")
    requires ResolveMountpoint(s, hostUsername, expandUser).Success?
    ensures StartsWith(ResolveMountpoint(s, hostUsername, expandUser).value, "/")
  {
    if "mountpoint" !in s {
      ExpandUserAbsolute(homes, hostUsername, s["hostname"] + "/" + s["share"]);
    } else if !StartsWith(s["mountpoint"], "/") {
      ExpandUserAbsolute(homes, hostUsername, s["mountpoint"]);
    }
  }

  /** A missing mount point becomes the host user's home, the host name and the share. */
  lemma DefaultMountpoint(s: Share, hostUsername: string, expandUser: ExpandUserFn, homes: HomeDirs)
    requires "mountpoint" !in s && "hostname" in s && "share" in s
    requires PosixExpandUser(expandUser, homes) && '/' !in hostUsername && homes(hostUsername).Some?
    ensures ResolveMountpoint(s, hostUsername, expandUser)
            == Success(RStrip(homes(hostUsername).value, '/') + "/" + (s["hostname"] + "/" + s["share"]))
  {
    ExpandUserHome(homes, hostUsername, s["hostname"] + "/" + s["share"]);
  }

  /** A relative mount point is taken from the host user's home. */
  lemma RelativeMountpoint(s: Share, hostUsername: string, expandUser: ExpandUserFn, homes: HomeDirs)
    requires "mountpoint" in s && !StartsWith(s["mountpoint"], "/")
    requires PosixExpandUser(expandUser, homes) && '/' !in hostUsername && homes(hostUsername).Some?
    ensures ResolveMountpoint(s, hostUsername, expandUser)
            == Success(RStrip(homes(hostUsername).value, '/') + "/" + s["mountpoint"])
  {
    ExpandUserHome(homes, hostUsername, s["mountpoint"]);
  }

  /** Preparing a share whose mount point came out absolute changes nothing more. */
  lemma PrepareIdempotent(s: Share, session: Session)
    requires PrepareShare(s, session).Success?
    requires StartsWith(PrepareShare(s, session).value["mountpoint"], "/")
    ensures PrepareShare(PrepareShare(s, session).value, session) == PrepareShare(s, session)
  {
    var p := PrepareShare(s, session).value;
    assert ResolveMountpoint(p, session.hostUsername, session.expandUser) == Success(p["mountpoint"]);
    assert Get(p, "username", session.domainUsername) == Get(s, "username", session.domainUsername);
    assert Get(p, "password", session.domainPassword) == Get(s, "password", session.domainPassword);
    var q := p["mountpoint" := p["mountpoint"]]
              ["host_username" := session.hostUsername]
              ["domain_username" := Get(s, "username", session.domainUsername)]
              ["domain_password" := Get(s, "password", session.domainPassword)];
    assert PrepareShare(p, session) == Success(q);
    assert q.Keys == p.Keys;
    assert q == p;
  }

  // ---------------------------------------------------------------------------
  // One share, then all of them

  /** What handling one share produces: the share as left behind, the commands
      handed to the shell, the log lines, and the exception that stopped it. */
  datatype Step = Step(share: Share, commands: seq<string>, log: seq<string>, error: Option<PyError>)

  /** The body of the loop of `run` for one share. */
  function ProcessShare(s: Share, session: Session): (step: Step)
    ensures step.error.None? <==> "hostname" in s && "share" in s
    ensures step.error.Some? ==> step.error.value.KeyError? && step.error.value.key in {"hostname", "share"}
    ensures step.error.None? ==> |step.commands| == 2 && PrepareShare(s, session) == Success(step.share)
    ensures !session.verbose ==> step.log == []
  {
    var prepared := PrepareShare(s, session);
    if prepared.Failure? then Step(s, [], [], Some(prepared.error))
    else
      var p := prepared.value;
      UmountCommandOf(p);
      MountCommandFails(p);
      var umount := Format(UMOUNT_TEMPLATE, p).value;
      var umountLog := if session.verbose then ["Umount command: " + umount] else [];
      var mount := Format(MOUNT_TEMPLATE, p);
      if mount.Failure? then Step(p, [umount], umountLog, Some(mount.error))
      else Step(p, [umount, mount.value], umountLog + if session.verbose then [MountLogLine(mount.value)] else [], None)
  }

  /** A share with a host name and a share name gives its `umount` command and
      then its `mount` command. */
  lemma ShareCommands(s: Share, session: Session)
    requires "hostname" in s && "share" in s
    ensures var p := PrepareShare(s, session).value;
            ProcessShare(s, session).commands
            == ["umount " + p["mountpoint"], MountPrefix(p) + PASSWORD_PLACEHOLDER + "\"" + p["domain_password"] + "\""]
  {
    var p := PrepareShare(s, session).value;
    UmountCommandOf(p);
    MountCommandOf(p);
  }

  /** What the loop over all shares produces. */
  datatype Plan = Plan(shares: seq<Share>, commands: seq<string>, log: seq<string>, error: Option<PyError>)

  /** A loop that hands each share to `handle` in order; the first exception
      stops it, leaving the later shares untouched. */
  function Loop(shares: seq<Share>, handle: Share -> Step): (p: Plan)
    ensures |p.shares| == |shares|
  {
    if shares == [] then Plan([], [], [], None)
    else
      var before := Loop(shares[..|shares| - 1], handle);
      var last := shares[|shares| - 1];
      if before.error.Some? then before.(shares := before.shares + [last])
      else
        var step := handle(last);
        Plan(before.shares + [step.share], before.commands + step.commands, before.log + step.log, step.error)
  }

  /** The body of the loop of `run`, as a value. */
  function Handler(session: Session): Share -> Step
  {
    s => ProcessShare(s, session)
  }

  /** The loop of `run`. */
  function ProcessShares(shares: seq<Share>, session: Session): (p: Plan)
  {
    Loop(shares, Handler(session))
  }

  /** Shares after the one that failed are left as they are. */
  lemma {:induction false} AfterError(shares: seq<Share>, later: seq<Share>, handle: Share -> Step)
    requires Loop(shares, handle).error.Some?
    ensures var p := Loop(shares, handle);
            Loop(shares + later, handle) == p.(shares := p.shares + later)
  {
    var p := Loop(shares, handle);
    if later == [] {
      assert shares + later == shares && p.shares + later == p.shares;
    } else {
      var all := shares + later;
      assert all[..|all| - 1] == shares + later[..|later| - 1];
      AfterError(shares, later[..|later| - 1], handle);
      assert all[|all| - 1] == later[|later| - 1];
      assert (p.shares + later[..|later| - 1]) + [later[|later| - 1]] == p.shares + later;
    }
  }

  /** The loop runs to the end exactly when every share names its host and share. */
  lemma {:induction false} AllSharesMounted(shares: seq<Share>, session: Session)
    ensures ProcessShares(shares, session).error.None?
            <==> forall i :: 0 <= i < |shares| ==> "hostname" in shares[i] && "share" in shares[i]
  {
    if shares != [] {
      var front := shares[..|shares| - 1];
      AllSharesMounted(front, session);
      assert forall i :: 0 <= i < |front| ==> front[i] == shares[i];
    }
  }

  /** After a complete run every share is prepared and has issued two commands,
      and nothing is logged unless verbose. */
  lemma {:induction false} CompletedRun(shares: seq<Share>, session: Session)
    requires ProcessShares(shares, session).error.None?
    ensures var p := ProcessShares(shares, session);
            && |p.commands| == 2 * |shares|
            && (forall i :: 0 <= i < |shares| ==> PrepareShare(shares[i], session) == Success(p.shares[i]))
            && (!session.verbose ==> p.log == [])
  {
    if shares != [] {
      var front := shares[..|shares| - 1];
      var before := ProcessShares(front, session);
      CompletedRun(front, session);
      var step := ProcessShare(shares[|shares| - 1], session);
      var p := ProcessShares(shares, session);
      assert p == Plan(before.shares + [step.share], before.commands + step.commands, before.log + step.log, step.error);
      forall i | 0 <= i < |shares| ensures PrepareShare(shares[i], session) == Success(p.shares[i]) {
        if i < |front| {
          assert shares[i] == front[i] && p.shares[i] == before.shares[i];
        }
      }
    }
  }

  /** The state of the loop after the first `i` shares went through: those are
      handled, the rest untouched. */
  ghost predicate Processed(shares0: seq<Share>, i: int, shares: seq<Share>, commands: seq<string>,
                            logged: seq<string>, handle: Share -> Step)
  {
    && 0 <= i <= |shares0| == |shares|
    && (forall j :: i <= j < |shares| ==> shares[j] == shares0[j])
    && Loop(shares0[..i], handle) == Plan(shares[..i], commands, logged, None)
  }

  /** Handling share `i` in place either moves the loop on or ends it with the
      share's exception. */
  lemma Advance(shares0: seq<Share>, i: int, shares: seq<Share>, commands: seq<string>,
                logged: seq<string>, handle: Share -> Step)
    requires Processed(shares0, i, shares, commands, logged, handle) && i < |shares|
    ensures var step := handle(shares[i]);
            var shares', commands', logged' := shares[i := step.share], commands + step.commands, logged + step.log;
            && (step.error.None? ==> Processed(shares0, i + 1, shares', commands', logged', handle))
            && (step.error.Some? ==> Loop(shares0, handle) == Plan(shares', commands', logged', step.error))
  {
    var step := handle(shares[i]);
    var shares' := shares[i := step.share];
    var done := Loop(shares0[..i], handle);
    assert shares[i] == shares0[i];
    assert shares0[..i + 1][..i] == shares0[..i];
    assert shares'[..i] == shares[..i];
    if step.error.Some? {
      AfterError(shares0[..i + 1], shares0[i + 1..], handle);
      assert shares0[..i + 1] + shares0[i + 1..] == shares0;
      assert shares' == done.shares + [step.share] + shares0[i + 1..];
    } else {
      assert shares'[..i + 1] == done.shares + [step.share];
    }
  }

  lemma Finish(shares0: seq<Share>, shares: seq<Share>, commands: seq<string>, logged: seq<string>,
               handle: Share -> Step)
    requires Processed(shares0, |shares0|, shares, commands, logged, handle)
    ensures Loop(shares0, handle) == Plan(shares, commands, logged, None)
  {
    assert shares0[..|shares0|] == shares0 && shares[..|shares|] == shares;
  }

  // ---------------------------------------------------------------------------
  // The object

  /** How `run` ends: `sys.exit(code)`, normally, or with an exception. */
  datatype RunOutcome = Exit(code: int) | Completed | Crashed(error: PyError)

  /** A typed-in value that is neither cancelled (None) nor empty. */
  predicate Filled(v: Option<string>)
  {
    v.Some? && v.value != ""
  }

  /** The `MountSmbShares` of mount.py, as far as `run` prepares and issues commands. */
  class MountSmbShares {
    var verbose: bool
    var hostUsername: string
    /** `samba_shares`: the shares as `set_shares` read them; `run` updates them in place. */
    var sambaShares: seq<Share>
    var domainUsername: Option<string>
    var domainPassword: Option<string>
    /** The lines written to the log by `run`. */
    var log: seq<string>

    constructor (verbose: bool, hostUsername: string, sambaShares: seq<Share>)
      ensures this.verbose == verbose && this.hostUsername == hostUsername && this.sambaShares == sambaShares
      ensures domainUsername == None && domainPassword == None && log == []
    {
      this.verbose := verbose;
      this.hostUsername := hostUsername;
      this.sambaShares := sambaShares;
      domainUsername := None;
      domainPassword := None;
      log := [];
    }

    /** `run` from the username prompt on: `username` and `password` are what the
        two prompts return (None when cancelled). Returns how it ends and the
        commands it hands to the shell, in order. */
    method Run(username: Option<string>, password: Option<string>, expandUser: ExpandUserFn)
      returns (outcome: RunOutcome, commands: seq<string>)
      modifies this
      ensures verbose == old(verbose) && hostUsername == old(hostUsername)
      ensures domainUsername == username
      ensures !Filled(username) ==> outcome == Exit(2) && domainPassword == old(domainPassword)
      ensures Filled(username) ==> domainPassword == password
      ensures Filled(username) && !Filled(password) ==> outcome == Exit(3)
      ensures !(Filled(username) && Filled(password)) ==>
                commands == [] && sambaShares == old(sambaShares) && log == old(log)
      ensures Filled(username) && Filled(password) ==>
                var p := ProcessShares(old(sambaShares), Session(hostUsername, username.value, password.value, expandUser, verbose));
                && sambaShares == p.shares && commands == p.commands && log == old(log) + p.log
                && outcome == (if p.error.Some? then Crashed(p.error.value) else Completed)
    {
      commands := [];
      domainUsername := username;
      if username.None? || |username.value| == 0 {
        return Exit(2), commands;
      }
      domainPassword := password;
      if password.None? || |password.value| == 0 {
        return Exit(3), commands;
      }
      var session := Session(hostUsername, username.value, password.value, expandUser, verbose);
      var error;
      error, commands := MountShares(Handler(session));
      outcome := if error.Some? then Crashed(error.value) else Completed;
    }

    /** The loop of `run` over `samba_shares`. */
    method MountShares(handle: Share -> Step) returns (error: Option<PyError>, commands: seq<string>)
      modifies this
      ensures verbose == old(verbose) && hostUsername == old(hostUsername)
      ensures domainUsername == old(domainUsername) && domainPassword == old(domainPassword)
      ensures var p := Loop(old(sambaShares), handle);
              sambaShares == p.shares && commands == p.commands && log == old(log) + p.log && error == p.error
    {
      var shares, logged := sambaShares, [];
      ghost var shares0 := shares;
      commands, error := [], None;
      var i := 0;
      while i < |shares|
        modifies {}
        invariant Processed(shares0, i, shares, commands, logged, handle)
      {
        Advance(shares0, i, shares, commands, logged, handle);
        var step := handle(shares[i]);
        shares := shares[i := step.share];
        logged := logged + step.log;
        commands := commands + step.commands;
        if step.error.Some? {
          error := step.error;
          break;
        }
        i := i + 1;
      }
      if error.None? {
        Finish(shares0, shares, commands, logged, handle);
      }
      sambaShares, log := shares, log + logged;
    }
  }
}
