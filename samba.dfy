/** pygmount/core/samba.py: the `mount -t cifs` command-line builder
    (`MountCifsWrapper`) and the translation of configuration sections into
    share records (`MountSmbShares.set_shares`). */
module Samba {
  import opened Wrappers
  import opened Strings
  import opened PyDict

  const MOUNT_COMMAND_NAME: string := "mount"
  const CIFS_FILESYSTEM_TYPE: string := "cifs"

  /** A mount option's value: a string, or None for a bare flag. */
  type Value = Option<string>

  /** Python truthiness of an option value: None and '' are false. */
  predicate Truthy(v: Value)
  {
    v.Some? && v.value != ""
  }

  /** What `'{}'.format(v)` prints for an optional string. */
  function Display(v: Option<string>): (text: string)
  {
    if v.None? then "None" else v.value
  }

  // ---------------------------------------------------------------------------
  // The command line

  /** `os.path.join(a, b)` on POSIX: an absolute `b` discards `a`; no slash is
      added after an empty `a` or one that already ends in a slash. */
  function PathJoin(a: string, b: string): (path: string)
  {
    if StartsWith(b, "/") then b
    else if a == "" || EndsWith(a, "/") then a + b
    else a + "/" + b
  }

  /** The `service` property. */
  function ServiceOf(server: string, share: string): (service: string)
  {
    "//" + PathJoin(server, share)
  }

  /** One rendered option: `key=value`, or the bare key when the value is falsy. */
  function OptionEntry(key: string, value: Value): (entry: string)
  {
    if Truthy(value) then key + "=" + value.value else key
  }

  /** The rendered options in key order. */
  function OptionEntries(d: Dict<Value>): (es: seq<string>)
    requires Valid(d)
    ensures |es| == |d.keys|
    ensures forall i :: 0 <= i < |d.keys| ==> es[i] == OptionEntry(d.keys[i], d.values[d.keys[i]])
  {
    seq(|d.keys|, i requires 0 <= i < |d.keys| => OptionEntry(d.keys[i], d.values[d.keys[i]]))
  }

  /** The `options` property: None for an empty map, otherwise `-o ` and the
      entries joined with commas. */
  function RenderOptions(d: Dict<Value>): (r: Option<string>)
    requires Valid(d)
    ensures r.None? <==> d.keys == []
    ensures r.Some? ==> StartsWith(r.value, "-o ")
  {
    if d.keys == [] then None else Some("-o " + Join(OptionEntries(d), ","))
  }

  /** The `command` property. Joining a missing server or share raises TypeError;
      a missing mountpoint is printed as `None`. */
  function CommandOf(commandName: string, filesystemType: string, server: Option<string>,
                     share: Option<string>, mountpoint: Option<string>, d: Dict<Value>): (command: Result<string>)
    requires Valid(d)
  {
    if server.None? || share.None? then Failure(TypeError("join() argument must be str, not NoneType"))
    else
      var base := commandName + " -t " + filesystemType + " " + ServiceOf(server.value, share.value)
                  + " " + Display(mountpoint);
      match RenderOptions(d)
      case None => Success(base)
      case Some(o) => Success(base + " " + o)
  }

  /** With a plain server name and a relative share the service is `//server/share`;
      an absolute share replaces the server, and a server ending in `/` gets no second slash. */
  lemma ServiceJoin(server: string, share: string)
    ensures server != "" && !EndsWith(server, "/") && !StartsWith(share, "/") ==>
              ServiceOf(server, share) == "//" + server + "/" + share
    ensures StartsWith(share, "/") ==> ServiceOf(server, share) == "//" + share
    ensures EndsWith(server, "/") && !StartsWith(share, "/") ==> ServiceOf(server, share) == "//" + server + share
  {
  }

  /** An empty option map gives no `-o` clause and no trailing space. */
  lemma CommandWithoutOptions(server: string, share: string, mountpoint: string)
    ensures CommandOf(MOUNT_COMMAND_NAME, CIFS_FILESYSTEM_TYPE, Some(server), Some(share), Some(mountpoint), Empty())
            == Success("mount -t cifs " + ServiceOf(server, share) + " " + mountpoint)
  {
    assert MOUNT_COMMAND_NAME + " -t " + CIFS_FILESYSTEM_TYPE + " " == "mount -t cifs ";
  }

  /** A non-empty option map is appended as ` -o ` and its comma-joined entries. */
  lemma CommandWithOptions(server: string, share: string, mountpoint: string, d: Dict<Value>)
    requires Valid(d) && d.keys != []
    ensures CommandOf(MOUNT_COMMAND_NAME, CIFS_FILESYSTEM_TYPE, Some(server), Some(share), Some(mountpoint), d)
            == Success("mount -t cifs " + ServiceOf(server, share) + " " + mountpoint
                       + " -o " + Join(OptionEntries(d), ","))
  {
    var head := MOUNT_COMMAND_NAME + " -t " + CIFS_FILESYSTEM_TYPE + " ";
    assert head == "mount -t cifs ";
    var base := head + ServiceOf(server, share) + " " + mountpoint;
    var joined := Join(OptionEntries(d), ",");
    assert RenderOptions(d) == Some("-o " + joined);
    assert CommandOf(MOUNT_COMMAND_NAME, CIFS_FILESYSTEM_TYPE, Some(server), Some(share), Some(mountpoint), d)
           == Success(base + " " + ("-o " + joined));
    AppendAssoc(base + " ", "-o ", joined);
    AppendAssoc(base, " ", "-o ");
    assert " " + "-o " == " -o ";
  }

  /** The command for `//h/s` on `/m` with the bare flag `foo`. */
  lemma BareFlagCommand()
    ensures CommandOf(MOUNT_COMMAND_NAME, CIFS_FILESYSTEM_TYPE, Some("h"), Some("s"), Some("/m"),
                      Put(Empty(), "foo", None))
            == Success("mount -t cifs //h/s /m -o foo")
  {
    var d := Put(Empty(), "foo", None);
    assert d.keys == ["foo"];
    assert OptionEntry("foo", None) == "foo";
    assert OptionEntries(d) == ["foo"];
    assert Join(["foo"], ",") == "foo";
    assert !StartsWith("s", "/") by { assert "s"[0] != "/"[0]; }
    assert !EndsWith("h", "/") by { assert "h"[0] != "/"[0]; }
    assert ServiceOf("h", "s") == "//h/s";
    CommandWithOptions("h", "s", "/m", d);
    assert "mount -t cifs " + "//h/s" + " " + "/m" + " -o " + "foo" == "mount -t cifs //h/s /m -o foo";
  }

  /** `text.split('=', 1)` read back as an option: a bare key, or key and value. */
  function ParseEntry(text: string): (entry: (string, Value))
  {
    var parts := SplitOnce(text, '=');
    if |parts| == 1 then (text, None) else (parts[0], Some(parts[1]))
  }

  /** Reads a rendered `-o` clause back into its (key, value) entries. */
  function ParseOptions(text: string): (entries: seq<(string, Value)>)
    requires StartsWith(text, "-o ")
  {
    var es := Split(text[3..], ',');
    seq(|es|, i requires 0 <= i < |es| => ParseEntry(es[i]))
  }

  /** The value an entry reads back as: a falsy value reads back as a bare key. */
  function ReadBack(v: Value): Value
  {
    if Truthy(v) then v else None
  }

  lemma EntryRoundTrip(key: string, value: Value)
    requires '=' !in key
    ensures ParseEntry(OptionEntry(key, value)) == (key, ReadBack(value))
  {
    if Truthy(value) {
      var text := key + "=" + value.value;
      IndexOfAfter(key, '=', value.value);
      assert text[..|key|] == key && text[|key| + 1..] == value.value;
    }
  }

  /** Rendering then parsing the options gives back every key, in order, with its
      value, when no key holds ',' or '=' and no value holds ','. */
  lemma OptionsRoundTrip(d: Dict<Value>)
    requires Valid(d) && d.keys != []
    requires forall k :: k in d.keys ==> ',' !in k && '=' !in k
    requires forall k :: k in d.values && d.values[k].Some? ==> ',' !in d.values[k].value
    ensures var parsed := ParseOptions(RenderOptions(d).value);
            |parsed| == |d.keys| &&
            forall i :: 0 <= i < |d.keys| ==> parsed[i] == (d.keys[i], ReadBack(d.values[d.keys[i]]))
  {
    var es := OptionEntries(d);
    forall i | 0 <= i < |es| ensures ',' !in es[i] {
      assert d.keys[i] in d.keys;
    }
    SplitJoin(es, ',');
    var text := RenderOptions(d).value;
    assert text[3..] == Join(es, [',']);
    forall i | 0 <= i < |d.keys| ensures ParseEntry(es[i]) == (d.keys[i], ReadBack(d.values[d.keys[i]])) {
      assert d.keys[i] in d.keys;
      EntryRoundTrip(d.keys[i], d.values[d.keys[i]]);
    }
  }

  // ---------------------------------------------------------------------------
  // The wrapper object

  /** `MountCifsWrapper`: the command name and filesystem type are fixed, the
      server, share, mountpoint and option map are attributes. */
  class MountCifsWrapper {
    const commandName: string := MOUNT_COMMAND_NAME
    const filesystemType: string := CIFS_FILESYSTEM_TYPE
    var server: Option<string>
    var share: Option<string>
    var mountpoint: Option<string>
    /** `_options` */
    var options: Dict<Value>

    ghost predicate Valid()
      reads this
    {
      PyDict.Valid(options)
    }

    /** The `filesystem_type` argument is accepted and ignored; the keyword
        arguments become the option map. */
    constructor (server: Option<string>, share: Option<string>, mountpoint: Option<string>,
                 filesystemTypeArgument: Option<string>, kwargs: Dict<Value>)
      requires PyDict.Valid(kwargs)
      ensures Valid()
      ensures this.server == server && this.share == share && this.mountpoint == mountpoint
      ensures options == kwargs
    {
      this.server := server;
      this.share := share;
      this.mountpoint := mountpoint;
      options := kwargs;
    }

    function Service(): Result<string>
      reads this
    {
      if server.None? || share.None? then Failure(TypeError("join() argument must be str, not NoneType"))
      else Success(ServiceOf(server.value, share.value))
    }

    function Options(): Option<string>
      reads this
      requires Valid()
    {
      RenderOptions(options)
    }

    function Command(): Result<string>
      reads this
      requires Valid()
    {
      CommandOf(commandName, filesystemType, server, share, mountpoint, options)
    }

    /** The `options` setter stores its own copy of the map. */
    method SetOptions(opts: Dict<Value>)
      requires PyDict.Valid(opts)
      modifies this
      ensures Valid() && options == opts
      ensures server == old(server) && share == old(share) && mountpoint == old(mountpoint)
    {
      options := opts;
    }

    /** `item in wrapper` */
    predicate Contains(item: string)
      reads this
    {
      item in options.values
    }

    /** `wrapper[item]`: the stored value, or KeyError for a key not in the map. */
    function GetItem(item: string): (r: Result<Value>)
      reads this
      ensures r.Success? <==> Contains(item)
      ensures r.Failure? ==> r.error == KeyError(item)
      ensures r.Success? ==> Get(options, item) == Some(r.value)
    {
      if item in options.values then Success(options.values[item]) else Failure(KeyError(item))
    }

    /** `wrapper[key] = value`: only that key changes; a new key goes last. */
    method SetItem(key: string, value: Value)
      requires Valid()
      modifies this
      ensures Valid()
      ensures Contains(key) && GetItem(key) == Success(value)
      ensures forall k :: k != key ==> GetItem(k) == old(GetItem(k))
      ensures old(Contains(key)) ==> options.keys == old(options.keys)
      ensures !old(Contains(key)) ==> options.keys == old(options.keys) + [key]
      ensures server == old(server) && share == old(share) && mountpoint == old(mountpoint)
    {
      options := Put(options, key, value);
    }
  }

  // ---------------------------------------------------------------------------
  // Configuration sections

  /** One section of the configuration as ConfigParser yields it. */
  datatype Section = Section(name: string, items: seq<(string, string)>)

  /** What `set_shares` has gathered for a section: the three positional
      arguments, the two hooks and the keyword arguments. */
  datatype Gathered = Gathered(server: Option<string>, share: Option<string>, mountpoint: Option<string>,
                               preHook: Option<string>, postHook: Option<string>, kwargs: Dict<Value>)

  const FIXED_KEYS: set<string> := {"share", "mountpoint", "hook_pre_command", "hook_post_command"}

  function StripQuotes(s: string): (stripped: string)
  {
    RStrip(LStrip(s, '"'), '"')
  }

  /** The host and the credentials of a `hostname` value, split at the last `@`
      the way the source does it: reverse, split at the first `@`, reverse back. */
  function SplitHostname(value: string): (r: (string, Option<string>))
    ensures '@' !in value ==> r == (value, None)
    ensures '@' in value ==> r.1.Some? && value == r.1.value + "@" + r.0 && '@' !in r.0
  {
    if '@' !in value then (value, None)
    else
      ReverseMembers(value, '@');
      var parts := SplitOnce(Reverse(value), '@');
      HostnameSplitsAtLastAt(value, parts);
      (Reverse(parts[0]), Some(Reverse(parts[1])))
  }

  lemma HostnameSplitsAtLastAt(value: string, parts: seq<string>)
    requires '@' in Reverse(value) && parts == SplitOnce(Reverse(value), '@')
    ensures |parts| == 2
    ensures value == Reverse(parts[1]) + "@" + Reverse(parts[0]) && '@' !in Reverse(parts[0])
  {
    ReverseConcat(parts[0], '@', parts[1]);
    ReverseReverse(value);
    ReverseMembers(parts[0], '@');
  }

  /** The user and the optional password of a credentials text, split at the
      first `:`, each with its leading and trailing `"` removed. */
  function SplitCredentials(credentials: string): (userPassword: (string, Option<string>))
  {
    var parts := SplitOnce(credentials, ':');
    (StripQuotes(parts[0]), if |parts| > 1 then Some(StripQuotes(parts[1])) else None)
  }

  /** The keyword-argument writes one configuration item makes: embedded
      credentials for `hostname`, none for the fixed slots, itself otherwise. */
  function OptionWrites(key: string, value: string): (ws: seq<(string, Value)>)
  {
    if key == "hostname" then
      var cred := SplitHostname(value).1;
      if cred.None? then []
      else
        var userPassword := SplitCredentials(cred.value);
        [("username", Some(userPassword.0))] + if userPassword.1.Some? then [("password", userPassword.1)] else []
    else if key in FIXED_KEYS then []
    else [(key, Some(value))]
  }

  /** One step of the inner loop of `set_shares`. */
  function Absorb(g: Gathered, key: string, value: string): (r: Gathered)
    requires Valid(g.kwargs)
    ensures Valid(r.kwargs)
  {
    var g' := g.(kwargs := PutAll(g.kwargs, OptionWrites(key, value)));
    if key == "hostname" then g'.(server := Some(SplitHostname(value).0))
    else if key == "share" then g'.(share := Some(value))
    else if key == "mountpoint" then g'.(mountpoint := Some(value))
    else if key == "hook_pre_command" then g'.(preHook := Some(value))
    else if key == "hook_post_command" then g'.(postHook := Some(value))
    else g'
  }

  function Gather(items: seq<(string, string)>): (g: Gathered)
    ensures Valid(g.kwargs)
  {
    if items == [] then Gathered(None, None, None, None, None, Empty())
    else Absorb(Gather(items[..|items| - 1]), items[|items| - 1].0, items[|items| - 1].1)
  }

  lemma AbsorbKwargs(g: Gathered, key: string, value: string)
    requires Valid(g.kwargs)
    ensures Absorb(g, key, value).kwargs == PutAll(g.kwargs, OptionWrites(key, value))
  {
  }

  /** The writes of each element of `xs`, in order. */
  function FlatMap<T, U>(xs: seq<T>, f: T -> seq<U>): seq<U>
  {
    if xs == [] then [] else FlatMap(xs[..|xs| - 1], f) + f(xs[|xs| - 1])
  }

  lemma {:induction false} FlatMapConcat<T, U>(a: seq<T>, b: seq<T>, f: T -> seq<U>)
    ensures FlatMap(a + b, f) == FlatMap(a, f) + FlatMap(b, f)
  {
    if b == [] {
      assert a + b == a;
    } else {
      var ab := a + b;
      assert ab[..|ab| - 1] == a + b[..|b| - 1];
      FlatMapConcat(a, b[..|b| - 1], f);
    }
  }

  function ItemWrites(item: (string, string)): seq<(string, Value)>
  {
    OptionWrites(item.0, item.1)
  }

  /** The keyword-argument writes of all items, in order. */
  function AllWrites(items: seq<(string, string)>): (ws: seq<(string, Value)>)
  {
    FlatMap(items, ItemWrites)
  }

  /** Each fixed slot holds the value of the last item with its key (the server:
      the host part of the last `hostname`), or None when no item has it. */
  lemma {:induction false} GatherSlots(items: seq<(string, string)>)
    ensures var h := LastWrite(items, "hostname");
            Gather(items).server == if h.Some? then Some(SplitHostname(h.value).0) else None
    ensures Gather(items).share == LastWrite(items, "share")
    ensures Gather(items).mountpoint == LastWrite(items, "mountpoint")
    ensures Gather(items).preHook == LastWrite(items, "hook_pre_command")
    ensures Gather(items).postHook == LastWrite(items, "hook_post_command")
  {
    if items != [] {
      var front, last := items[..|items| - 1], items[|items| - 1];
      GatherSlots(front);
      AbsorbSlots(Gather(front), last.0, last.1);
    }
  }

  /** An item fills the slot its key names and leaves the others alone. */
  lemma AbsorbSlots(g: Gathered, key: string, value: string)
    requires Valid(g.kwargs)
    ensures var r := Absorb(g, key, value);
            && r.server == (if key == "hostname" then Some(SplitHostname(value).0) else g.server)
            && r.share == (if key == "share" then Some(value) else g.share)
            && r.mountpoint == (if key == "mountpoint" then Some(value) else g.mountpoint)
            && r.preHook == (if key == "hook_pre_command" then Some(value) else g.preHook)
            && r.postHook == (if key == "hook_post_command" then Some(value) else g.postHook)
  {
  }

  /** The keyword arguments are the writes of the items applied in order to `{}`. */
  lemma {:induction false} GatherOptions(items: seq<(string, string)>)
    ensures Gather(items).kwargs == PutAll(Empty(), AllWrites(items))
  {
    if items != [] {
      var front, last := items[..|items| - 1], items[|items| - 1];
      var ws := OptionWrites(last.0, last.1);
      GatherOptions(front);
      AbsorbKwargs(Gather(front), last.0, last.1);
      assert AllWrites(items) == AllWrites(front) + ws;
      PutAllConcat(Empty(), AllWrites(front), ws);
    }
  }

  /** The options keep the order in which their keys were first written. */
  lemma GatherKeyOrder(items: seq<(string, string)>)
    ensures Gather(items).kwargs.keys == FirstOccurrences(KeysOf(AllWrites(items)))
  {
    GatherOptions(items);
    PutAllKeyOrder(AllWrites(items));
  }

  lemma AllWritesConcat(a: seq<(string, string)>, b: seq<(string, string)>)
    ensures AllWrites(a + b) == AllWrites(a) + AllWrites(b)
  {
    FlatMapConcat(a, b, ItemWrites);
  }

  /** Items none of which writes `k` leave no write to `k`. */
  lemma {:induction false} NoWritesTo(items: seq<(string, string)>, k: string)
    requires forall j :: 0 <= j < |items| ==> k !in KeysOf(OptionWrites(items[j].0, items[j].1))
    ensures LastWrite(AllWrites(items), k) == None
  {
    if items != [] {
      var front := items[..|items| - 1];
      var last := OptionWrites(items[|items| - 1].0, items[|items| - 1].1);
      NoWritesTo(front, k);
      LastWriteConcat(AllWrites(front), last, k);
      NoWriteAmong(last, k);
    }
  }

  lemma {:induction false} NoWriteAmong(ws: seq<(string, Value)>, k: string)
    requires k !in KeysOf(ws)
    ensures LastWrite(ws, k) == None
  {
    if ws != [] {
      assert KeysOf(ws)[..|ws| - 1] == KeysOf(ws[..|ws| - 1]);
      NoWriteAmong(ws[..|ws| - 1], k);
    }
  }

  /** The option `k` holds the value of the last write to it. */
  lemma OptionIsLastWrite(items: seq<(string, string)>, k: string)
    ensures Get(Gather(items).kwargs, k) == LastWrite(AllWrites(items), k)
  {
    GatherOptions(items);
    PutAllLastWriteWins(Empty(), AllWrites(items), k);
  }

  /** An item whose key is not one of the recognised ones becomes an option with
      its value verbatim, unless a later item writes the same option again. */
  lemma ExplicitKeyLastWriteWins(items: seq<(string, string)>, i: int)
    requires 0 <= i < |items|
    requires items[i].0 != "hostname" && items[i].0 !in FIXED_KEYS
    requires forall j :: i < j < |items| ==> items[i].0 !in KeysOf(OptionWrites(items[j].0, items[j].1))
    ensures Get(Gather(items).kwargs, items[i].0) == Some(Some(items[i].1))
  {
    var k, ws := items[i].0, [(items[i].0, Some(items[i].1))];
    assert OptionWrites(k, items[i].1) == ws;
    ItemLastWriteWins(items, i, k);
    LastWriteConcat(AllWrites(items[..i]), ws, k);
    assert LastWrite(ws, k) == Some(Some(items[i].1));
  }

  /** When no later item writes `k`, the option `k` is what item `i` leaves it as. */
  lemma ItemLastWriteWins(items: seq<(string, string)>, i: int, k: string)
    requires 0 <= i < |items|
    requires forall j :: i < j < |items| ==> k !in KeysOf(OptionWrites(items[j].0, items[j].1))
    ensures Get(Gather(items).kwargs, k) == LastWrite(AllWrites(items[..i]) + OptionWrites(items[i].0, items[i].1), k)
  {
    LastWriteOfItem(items, i, k);
    OptionIsLastWrite(items, k);
  }

  /** The last write to `k` over all items is the last one item `i` makes, when no
      later item writes `k`. */
  lemma LastWriteOfItem(items: seq<(string, string)>, i: int, k: string)
    requires 0 <= i < |items|
    requires forall j :: i < j < |items| ==> k !in KeysOf(OptionWrites(items[j].0, items[j].1))
    ensures LastWrite(AllWrites(items), k) == LastWrite(AllWrites(items[..i]) + OptionWrites(items[i].0, items[i].1), k)
  {
    var rest := items[i + 1..];
    var upTo := AllWrites(items[..i]) + OptionWrites(items[i].0, items[i].1);
    AllWritesSplitAt(items, i);
    forall j | 0 <= j < |rest| ensures k !in KeysOf(OptionWrites(rest[j].0, rest[j].1)) {
      assert rest[j] == items[i + 1 + j];
    }
    NoWritesTo(rest, k);
    LastWriteConcat(upTo, AllWrites(rest), k);
  }

  lemma AllWritesSplitAt(items: seq<(string, string)>, i: int)
    requires 0 <= i < |items|
    ensures AllWrites(items) == AllWrites(items[..i]) + OptionWrites(items[i].0, items[i].1) + AllWrites(items[i + 1..])
  {
    var front, rest := items[..i + 1], items[i + 1..];
    assert items == front + rest;
    AllWritesConcat(front, rest);
    assert front[..|front| - 1] == items[..i] && front[|front| - 1] == items[i];
    assert AllWrites(front) == AllWrites(items[..i]) + OptionWrites(items[i].0, items[i].1);
  }

  /** `"user":"pass"@host` with plain parts reads back as host, user and password.
      The password may itself hold `:` and `@`. */
  lemma HostnameRoundTrip(user: string, password: string, host: string)
    requires ':' !in user && '@' !in host
    requires user == [] || (user[0] != '"' && user[|user| - 1] != '"')
    requires password == [] || (password[0] != '"' && password[|password| - 1] != '"')
    ensures SplitHostname(user + ":" + password + "@" + host) == (host, Some(user + ":" + password))
    ensures SplitCredentials(user + ":" + password) == (user, Some(password))
  {
    assert user + ":" + password + "@" + host == (user + ":" + password) + "@" + host;
    HostnameOf(user + ":" + password, host);
    CredentialsOf(user, password);
    StripUnquoted(user);
    StripUnquoted(password);
  }

  /** Quotes around the user and the password are dropped. */
  lemma QuotedCredentialsRoundTrip(user: string, password: string)
    requires ':' !in user
    requires user == [] || (user[0] != '"' && user[|user| - 1] != '"')
    requires password == [] || (password[0] != '"' && password[|password| - 1] != '"')
    ensures SplitCredentials("\"" + user + "\":\"" + password + "\"") == (user, Some(password))
  {
    var quotedUser, quotedPassword := "\"" + user + "\"", "\"" + password + "\"";
    assert "\"" + user + "\":\"" + password + "\"" == quotedUser + ":" + quotedPassword;
    CredentialsOf(quotedUser, quotedPassword);
    StripQuoted(user);
    StripQuoted(password);
  }

  lemma HostnameOf(credentials: string, host: string)
    requires '@' !in host
    ensures SplitHostname(credentials + "@" + host) == (host, Some(credentials))
  {
    var value := credentials + "@" + host;
    assert value[|credentials|] == '@';
    var r := SplitHostname(value);
    SplitAtLastUnique(value, r.1.value, r.0, credentials, host);
  }

  lemma CredentialsOf(user: string, password: string)
    requires ':' !in user
    ensures SplitCredentials(user + ":" + password) == (StripQuotes(user), Some(StripQuotes(password)))
  {
    var text := user + ":" + password;
    IndexOfAfter(user, ':', password);
    assert text[..|user|] == user && text[|user| + 1..] == password;
  }

  lemma SplitAtLastUnique(value: string, a: string, b: string, c: string, d: string)
    requires value == a + "@" + b && '@' !in b
    requires value == c + "@" + d && '@' !in d
    ensures a == c && b == d
  {
    assert value[|value| - |b| - 1] == '@' && value[|value| - |d| - 1] == '@';
    assert forall k :: |value| - |b| <= k < |value| ==> value[k] == b[k - (|value| - |b|)] != '@';
    assert forall k :: |value| - |d| <= k < |value| ==> value[k] == d[k - (|value| - |d|)] != '@';
    assert |b| == |d|;
    assert b == value[|value| - |b|..] == d;
    assert a == value[..|a|] == c;
  }

  lemma StripUnquoted(s: string)
    requires s == [] || (s[0] != '"' && s[|s| - 1] != '"')
    ensures StripQuotes(s) == s
  {
  }

  lemma StripQuoted(s: string)
    requires s == [] || (s[0] != '"' && s[|s| - 1] != '"')
    ensures StripQuotes("\"" + s + "\"") == s
  {
    if s == [] {
      LStripOne('"', "");
      assert "\"" + s + "\"" == ['"'] + "\"";
    } else {
      StripQuotedNonEmpty(s);
    }
  }

  lemma StripQuotedNonEmpty(s: string)
    requires s != [] && s[0] != '"' && s[|s| - 1] != '"'
    ensures StripQuotes("\"" + s + "\"") == s
  {
    LStripOne('"', s + "\"");
    RStripOne(s, '"');
    assert "\"" + s + "\"" == ['"'] + (s + "\"");
  }

  /** An embedded `user:password@host` sets the `username` and `password`
      options unless a later item writes them again: there is no priority for
      explicit keys, the later write wins. */
  lemma EmbeddedCredentialsLastWriteWins(items: seq<(string, string)>, i: int, user: string, password: string, host: string)
    requires 0 <= i < |items|
    requires ':' !in user && '@' !in host
    requires user == [] || (user[0] != '"' && user[|user| - 1] != '"')
    requires password == [] || (password[0] != '"' && password[|password| - 1] != '"')
    requires items[i] == ("hostname", user + ":" + password + "@" + host)
    requires forall j :: i < j < |items| ==>
               "username" !in KeysOf(OptionWrites(items[j].0, items[j].1)) &&
               "password" !in KeysOf(OptionWrites(items[j].0, items[j].1))
    ensures Get(Gather(items).kwargs, "username") == Some(Some(user))
    ensures Get(Gather(items).kwargs, "password") == Some(Some(password))
  {
    var ws := [("username", Some(user)), ("password", Some(password))];
    CredentialWrites(user, password, host);
    assert OptionWrites(items[i].0, items[i].1) == ws;
    var before := AllWrites(items[..i]);
    CredentialLastWrites(user, password);
    ItemLastWriteWins(items, i, "username");
    LastWriteConcat(before, ws, "username");
    ItemLastWriteWins(items, i, "password");
    LastWriteConcat(before, ws, "password");
  }

  lemma CredentialLastWrites(user: string, password: string)
    ensures var ws := [("username", Some(user)), ("password", Some(password))];
            LastWrite(ws, "username") == Some(Some(user)) && LastWrite(ws, "password") == Some(Some(password))
  {
    var ws := [("username", Some(user)), ("password", Some(password))];
    assert ws[..1] == [("username", Some(user))];
  }

  lemma CredentialWrites(user: string, password: string, host: string)
    requires ':' !in user && '@' !in host
    requires user == [] || (user[0] != '"' && user[|user| - 1] != '"')
    requires password == [] || (password[0] != '"' && password[|password| - 1] != '"')
    ensures OptionWrites("hostname", user + ":" + password + "@" + host)
            == [("username", Some(user)), ("password", Some(password))]
  {
    var value := user + ":" + password + "@" + host;
    HostnameRoundTrip(user, password, host);
    var cred := SplitHostname(value).1;
    assert cred == Some(user + ":" + password);
    assert SplitCredentials(cred.value) == (user, Some(password));
  }

  /** `user@host` with no `:` in the user writes the user name and no password. */
  lemma UserOnlyWrites(user: string, host: string)
    requires ':' !in user && '@' !in host
    ensures OptionWrites("hostname", user + "@" + host) == [("username", Some(StripQuotes(user)))]
  {
    HostnameOf(user, host);
  }

  /** The keys of the writes for a user name and an optional password. */
  lemma CredentialKeys(user: string, password: Option<string>)
    ensures KeysOf([("username", Some(user))] + if password.Some? then [("password", password)] else [])
            == if password.None? then ["username"] else ["username", "password"]
  {
    var ws: seq<(string, Value)> := [("username", Some(user))] + if password.Some? then [("password", password)] else [];
    if password.None? {
      assert ws == [("username", Some(user))];
    }
  }

  /** The keys a `hostname` value writes: none without credentials, the user
      name alone without a `:` in them, the user name and the password with one. */
  lemma HostnameWriteKeys(value: string)
    ensures KeysOf(OptionWrites("hostname", value))
            == if '@' !in value then []
               else if SplitCredentials(SplitHostname(value).1.value).1.None? then ["username"]
               else ["username", "password"]
  {
    if '@' in value {
      var up := SplitCredentials(SplitHostname(value).1.value);
      CredentialKeys(up.0, up.1);
    }
  }

  /** A `hostname` value writes a password exactly when it carries credentials
      with a `:` in them, and a user name whenever it carries credentials. */
  lemma PasswordNeedsColon(value: string)
    ensures "username" in KeysOf(OptionWrites("hostname", value)) <==> '@' in value
    ensures "password" in KeysOf(OptionWrites("hostname", value))
            <==> '@' in value && ':' in SplitHostname(value).1.value
  {
    HostnameWriteKeys(value);
    if '@' in value {
      var cred := SplitHostname(value).1.value;
      assert SplitCredentials(cred).1.Some? <==> |SplitOnce(cred, ':')| > 1;
    }
  }

  /** Calling `MountCifsWrapper(server, share, mountpoint, **kwargs)`: a keyword
      that names a positional parameter already given (`self`, `server`) raises
      TypeError; `filesystem_type` binds that parameter and leaves the map; the
      other keywords, in order, become the wrapper's options. */
  function BindCall(kwargs: Dict<Value>): (r: Result<Dict<Value>>)
    requires Valid(kwargs)
    ensures r.Failure? <==> "self" in kwargs.values || "server" in kwargs.values
    ensures r.Success? ==> Valid(r.value) && Get(r.value, "filesystem_type") == None
    ensures r.Success? ==> forall k :: k != "filesystem_type" ==> Get(r.value, k) == Get(kwargs, k)
    ensures r.Success? ==> r.value.keys == Without(kwargs.keys, "filesystem_type")
  {
    if "self" in kwargs.values || "server" in kwargs.values then
      Failure(TypeError("__init__() got multiple values for argument"))
    else Success(Remove(kwargs, "filesystem_type"))
  }

  /** The options of the wrapper built for a section keep the order in which
      their keys were first written, without `filesystem_type`. */
  lemma WrapperOptionOrder(items: seq<(string, string)>)
    requires BindCall(Gather(items).kwargs).Success?
    ensures BindCall(Gather(items).kwargs).value.keys
            == Without(FirstOccurrences(KeysOf(AllWrites(items))), "filesystem_type")
  {
    GatherKeyOrder(items);
  }

  /** One entry of `shares`: `(name, wrapper, pre_hook, post_hook)`. */
  datatype ShareEntry = ShareEntry(name: string, wrapper: MountCifsWrapper,
                                   preHook: Option<string>, postHook: Option<string>)

  /** `entry` is what `set_shares` builds for `section`. */
  ghost predicate BuiltFrom(entry: ShareEntry, section: Section)
    reads entry.wrapper
  {
    var g := Gather(section.items);
    var call := BindCall(g.kwargs);
    && entry.name == section.name
    && call.Success?
    && entry.wrapper.server == g.server
    && entry.wrapper.share == g.share
    && entry.wrapper.mountpoint == g.mountpoint
    && entry.wrapper.options == call.value
    && entry.preHook == g.preHook
    && entry.postHook == g.postHook
  }

  /** The inner loop of `set_shares`: reads one section's items in order. */
  method ReadSection(items: seq<(string, string)>)
    returns (server: Option<string>, share: Option<string>, mountpoint: Option<string>,
             preHook: Option<string>, postHook: Option<string>, kwargs: Dict<Value>)
    ensures Gathered(server, share, mountpoint, preHook, postHook, kwargs) == Gather(items)
  {
    server, share, mountpoint := None, None, None;
    preHook, postHook := None, None;
    kwargs := Empty();
    var j := 0;
    while j < |items|
      invariant j <= |items|
      invariant Gathered(server, share, mountpoint, preHook, postHook, kwargs) == Gather(items[..j])
    {
      assert items[..j + 1][..j] == items[..j];
      server, share, mountpoint, preHook, postHook, kwargs :=
        ReadItem(server, share, mountpoint, preHook, postHook, kwargs, items[j].0, items[j].1);
      j := j + 1;
    }
    assert items[..|items|] == items;
  }

  /** One pass of that loop: the item's key picks the slot it fills or the option it writes. */
  method ReadItem(server: Option<string>, share: Option<string>, mountpoint: Option<string>,
                  preHook: Option<string>, postHook: Option<string>, kwargs: Dict<Value>,
                  key: string, value: string)
    returns (server': Option<string>, share': Option<string>, mountpoint': Option<string>,
             preHook': Option<string>, postHook': Option<string>, kwargs': Dict<Value>)
    requires Valid(kwargs)
    ensures Gathered(server', share', mountpoint', preHook', postHook', kwargs')
            == Absorb(Gathered(server, share, mountpoint, preHook, postHook, kwargs), key, value)
  {
    ghost var g := Gathered(server, share, mountpoint, preHook, postHook, kwargs);
    server', share', mountpoint', preHook', postHook', kwargs' := server, share, mountpoint, preHook, postHook, kwargs;
    if key == "hostname" {
      if '@' !in value {
        server' := Some(value);
      } else {
        var hostCred := SplitHostname(value);
        server' := Some(hostCred.0);
        var (user, password) := SplitCredentials(hostCred.1.value);
        kwargs' := Put(kwargs, "username", Some(user));
        if password.Some? {
          kwargs' := Put(kwargs', "password", password);
        }
      }
      AbsorbHostname(g, value);
    } else if key == "share" {
      share' := Some(value);
      AbsorbFixed(g, key, value);
    } else if key == "mountpoint" {
      mountpoint' := Some(value);
      AbsorbFixed(g, key, value);
    } else if key == "hook_pre_command" {
      preHook' := Some(value);
      AbsorbFixed(g, key, value);
    } else if key == "hook_post_command" {
      postHook' := Some(value);
      AbsorbFixed(g, key, value);
    } else {
      kwargs' := Put(kwargs, key, Some(value));
      AbsorbOption(g, key, value);
    }
  }

  /** The `MountSmbShares` of samba.py, as far as `set_shares` goes. */
  class MountSmbShares {
    /** `_shares`: None until `set_shares` runs. */
    var shares: Option<seq<ShareEntry>>

    constructor ()
      ensures shares == None
    {
      shares := None;
    }

    /** Builds one share entry per section, in section order. A section whose
        keys clash with the wrapper's parameters raises TypeError, leaving the
        entries of the sections before it. */
    method SetShares(config: seq<Section>) returns (raised: Option<PyError>)
      modifies this
      ensures shares.Some? && |shares.value| <= |config|
      ensures forall i :: 0 <= i < |shares.value| ==> BuiltFrom(shares.value[i], config[i])
      ensures forall i :: 0 <= i < |shares.value| ==> fresh(shares.value[i].wrapper)
      ensures raised.None? <==> |shares.value| == |config|
      ensures raised.Some? ==> BindCall(Gather(config[|shares.value|].items).kwargs) == Failure(raised.value)
    {
      shares := Some([]);
      var n := 0;
      while n < |config|
        invariant n <= |config| && shares.Some? && |shares.value| == n
        invariant forall i :: 0 <= i < n ==> BuiltFrom(shares.value[i], config[i])
        invariant forall i :: 0 <= i < n ==> fresh(shares.value[i].wrapper)
      {
        var server, share, mountpoint, preHook, postHook, kwargs := ReadSection(config[n].items);
        var call := BindCall(kwargs);
        if call.Failure? {
          return Some(call.error);
        }
        var wrapper := new MountCifsWrapper(server, share, mountpoint, None, call.value);
        shares := Some(shares.value + [ShareEntry(config[n].name, wrapper, preHook, postHook)]);
        n := n + 1;
      }
      return None;
    }
  }

  lemma AbsorbFixed(g: Gathered, key: string, value: string)
    requires Valid(g.kwargs) && key in FIXED_KEYS
    ensures Absorb(g, key, value).kwargs == g.kwargs
  {
    assert key != "hostname";
    assert OptionWrites(key, value) == [];
    AbsorbKwargs(g, key, value);
  }

  lemma AbsorbOption(g: Gathered, key: string, value: string)
    requires Valid(g.kwargs) && key != "hostname" && key !in FIXED_KEYS
    ensures Absorb(g, key, value) == g.(kwargs := Put(g.kwargs, key, Some(value)))
  {
    var ws := [(key, Some(value))];
    assert OptionWrites(key, value) == ws;
    assert ws[..0] == [];
    assert PutAll(g.kwargs, ws) == Put(g.kwargs, key, Some(value));
    assert key != "share" && key != "mountpoint" && key != "hook_pre_command" && key != "hook_post_command";
  }

  /** The `hostname` branch of the loop sets the server and, for embedded
      credentials, updates `username` and then `password`. */
  lemma AbsorbHostname(g: Gathered, value: string)
    requires Valid(g.kwargs)
    ensures '@' !in value ==> Absorb(g, "hostname", value) == g.(server := Some(value))
    ensures '@' in value ==>
              var (user, password) := SplitCredentials(SplitHostname(value).1.value);
              var d := Put(g.kwargs, "username", Some(user));
              Absorb(g, "hostname", value)
              == g.(server := Some(SplitHostname(value).0),
                    kwargs := if password.Some? then Put(d, "password", password) else d)
  {
    if '@' in value {
      var (user, password) := SplitCredentials(SplitHostname(value).1.value);
      AbsorbCredentials(g.kwargs, user, password);
    }
  }

  /** The two explicit updates of embedded credentials are the writes `OptionWrites` lists. */
  lemma AbsorbCredentials(d: Dict<Value>, user: string, password: Option<string>)
    requires Valid(d)
    ensures var d' := Put(d, "username", Some(user));
            PutAll(d, [("username", Some(user))] + if password.Some? then [("password", password)] else [])
            == if password.Some? then Put(d', "password", password) else d'
  {
    var first := [("username", Some(user))];
    assert first[..0] == [];
    assert PutAll(d, first) == Put(d, "username", Some(user));
    if password.Some? {
      var ws := first + [("password", password)];
      assert ws[..1] == first;
    } else {
      assert first + [] == first;
    }
  }
}
