# pygmount: mounting Samba shares, modelled in Dafny

pygmount mounts a user's SMB/CIFS network shares at login. For each share it
builds a `mount -t cifs` command line, and it reads the shares from an INI-style
configuration file. This project models two parts of it:

- `pygmount/core/samba.py` (module `Samba`):
  - `MountCifsWrapper` builds the command line from the server, the share, the
    mount point and an ordered map of `-o` options. The model keeps the
    `command`, `service` and `options` properties, the `options` setter and the
    `in`, `[]` and `[]=` operators.
  - `MountSmbShares.set_shares` turns each configuration section into a share
    entry `(name, wrapper, pre_hook, post_hook)`. Credentials may be embedded in
    the host name as `user:password@host`.
- `pygmount/utils/mount.py` (module `Mount`): the part of
  `MountSmbShares.run` that acts on each share. It covers:
  - the exits when the typed-in domain user name or password is empty;
  - resolving the local mount point through `os.path.expanduser`;
  - choosing the credentials;
  - formatting the `umount` and `mount` command templates with `%`;
  - the verbose log line, which masks the password.

The supporting modules are:
- `Wrappers`: Python's `None`, and the exceptions the code can raise
  (`TypeError`, `KeyError`).
- `Strings`: the `str` operations the code uses (reverse, `split`, `join`,
  `lstrip`, `rstrip`, `split(m)[0]`).
- `PyDict`: a `dict` with string keys that remembers insertion order.

State that the source changes in place is modelled with classes:
- `MountCifsWrapper` and `MountSmbShares` of samba.py;
- `MountSmbShares` of mount.py, whose `samba_shares` dictionaries `run` updates
  in place.

Pure computations are functions, and their properties are lemmas. The loops
are methods with invariants. Each method is proved against a function that
specifies it (`Gather`, `Loop`, `ProcessShares`).

## Model

| member | source | states |
|---|---|---|
| Samba.RenderOptions | pygmount/core/samba.py:68-74 | the `options` property is None exactly when the map is empty; otherwise it starts with `-o ` |
| Samba.EntryRoundTrip | pygmount/core/samba.py:72-73 | splitting a rendered entry at its first `=` gives back the key and its value; a falsy value comes back as a bare key |
| Samba.OptionsRoundTrip | pygmount/core/samba.py:68-74 | parsing the rendered `-o` clause gives back every option, in order, with its value, when no key holds `,` or `=` and no value holds `,` |
| Samba.ServiceJoin | pygmount/core/samba.py:64-66 | `service` is `//server/share` for a plain server and a relative share; an absolute share replaces the server; a server ending in `/` gets no second slash |
| Samba.CommandWithoutOptions | pygmount/core/samba.py:56-62 | with no options the command is `mount -t cifs <service> <mountpoint>`, with no `-o` and no trailing space |
| Samba.CommandWithOptions | pygmount/core/samba.py:56-74 | with options the command is followed by ` -o ` and the comma-joined entries, one per option in key order |
| Samba.BareFlagCommand | pygmount/core/samba.py:56-74 | a concrete command: `//h/s` on `/m` with the bare flag `foo` gives `mount -t cifs //h/s /m -o foo` |
| Samba.MountCifsWrapper.constructor | pygmount/core/samba.py:47-54 | stores the server, the share and the mount point; ignores the `filesystem_type` argument; the keyword arguments become the option map |
| Samba.MountCifsWrapper.SetOptions | pygmount/core/samba.py:76-78 | the setter replaces the option map with a copy of the given one and leaves the other attributes alone |
| Samba.MountCifsWrapper.GetItem | pygmount/core/samba.py:80-84 | `w[k]` succeeds exactly when `k in w`, and then returns the stored value; otherwise it raises KeyError(k) |
| Samba.MountCifsWrapper.SetItem | pygmount/core/samba.py:86-87 | `w[k] = v`: afterwards `k in w` and `w[k] == v`; every other key reads as before; an existing key keeps its place and a new key goes last |
| Samba.SplitHostname | pygmount/core/samba.py:150-156 | a `hostname` value without `@` is the host; otherwise it splits at the last `@` into credentials and a host that holds no `@` |
| Samba.HostnameRoundTrip | pygmount/core/samba.py:150-162 | `user:password@host` reads back as host, user and password, for a user without `:`, a host without `@` and unquoted parts; the password may hold `:` and `@` |
| Samba.UserOnlyWrites | pygmount/core/samba.py:153-162 | `user@host` with no `:` in the user writes the user name, quotes stripped, and no password |
| Samba.CredentialWrites | pygmount/core/samba.py:153-162 | `user:password@host` with plain parts writes `username`, then `password`, with those values |
| Samba.HostnameWriteKeys | pygmount/core/samba.py:153-162 | a `hostname` value writes no key without `@`, only `username` when the credentials split into no password, and `username` then `password` otherwise |
| Samba.PasswordNeedsColon | pygmount/core/samba.py:153-162 | a `hostname` value writes `username` exactly when it holds `@`, and `password` exactly when its credentials also hold `:` |
| Samba.QuotedCredentialsRoundTrip | pygmount/core/samba.py:157-159 | the double quotes around the user and the password are stripped |
| Samba.AbsorbHostname | pygmount/core/samba.py:150-162 | the `hostname` item sets the server to the host part; with embedded credentials it sets `username`, then `password` if there is one |
| Samba.AbsorbSlots | pygmount/core/samba.py:150-170 | an item fills the slot its key names (`hostname` the server, with its host part; `share`, `mountpoint` and the two hooks their own) and leaves the other slots alone |
| Samba.AbsorbFixed | pygmount/core/samba.py:163-170 | `share`, `mountpoint` and the two hook keys write no option |
| Samba.AbsorbOption | pygmount/core/samba.py:171-172 | any other key becomes an option with its value and changes nothing else |
| Samba.GatherSlots | pygmount/core/samba.py:146-172 | each slot holds the last value given for its key (for the server, the host part of the last `hostname`), or None when no item sets it |
| Samba.GatherOptions | pygmount/core/samba.py:147-172 | the keyword arguments are the items' option writes applied to `{}` in item order |
| Samba.GatherKeyOrder | pygmount/core/samba.py:147-172 | the options keep the order in which their keys were first written |
| Samba.OptionIsLastWrite | pygmount/core/samba.py:160-172 | each option holds the value of the last write to it |
| Samba.ExplicitKeyLastWriteWins | pygmount/core/samba.py:171-172 | an unrecognised key becomes an option with its value verbatim, unless a later item writes the same option again |
| Samba.EmbeddedCredentialsLastWriteWins | pygmount/core/samba.py:153-162 | embedded credentials set `username` and `password` unless a later item writes them: the later write wins |
| Samba.BindCall | pygmount/core/samba.py:173-174 | `MountCifsWrapper(*args, **kwargs)` raises TypeError exactly when a keyword is `self` or `server`; `filesystem_type` is bound to its parameter and dropped from the options; every other option is passed through with its value, and the keys keep their order |
| Samba.WrapperOptionOrder | pygmount/core/samba.py:147-174 | the wrapper's options are in the order their keys were first written in the section, without `filesystem_type` |
| Samba.ReadItem | pygmount/core/samba.py:150-172 | one pass of the inner loop gives what `Absorb` specifies |
| Samba.ReadSection | pygmount/core/samba.py:146-172 | the inner loop over a section's items ends with what `Gather` specifies |
| Samba.MountSmbShares.SetShares | pygmount/core/samba.py:141-175 | one entry per section, in section order, each built from its section's gathered values; a TypeError from the call stops it after the entries of the earlier sections |
| PyDict.PutAllLastWriteWins | pygmount/core/samba.py:160-172 | after a run of `dict` updates a key holds its last written value, and an unwritten key keeps its old value |
| PyDict.Remove | pygmount/core/samba.py:173-174 | binding `filesystem_type` removes that key only: it reads as absent afterwards, every other key reads as before, and the key order is the old one without it |
| PyDict.WithoutAt | pygmount/core/samba.py:173-174 | taking a key out of an order with no repeated keys removes its one occurrence and keeps the others in place |
| PyDict.PutAllKeyOrder | pygmount/core/samba.py:160-172 | updates into `{}` leave the keys in the order of their first write |
| Mount.Format | pygmount/utils/mount.py:192 | `template % share` succeeds exactly when every field is present; a failure is a KeyError naming a field of the template that is missing |
| Mount.FormatFirstMissing | pygmount/utils/mount.py:192 | the KeyError names the first missing field in the template |
| Mount.MountCommandOf | pygmount/utils/mount.py:35-39 | `cmd_mount % share` is `mount -t cifs //<hostname>/<share> <mountpoint> -o username="<domain user>",uid=<host user>,password="<domain password>"` |
| Mount.MountCommandFails | pygmount/utils/mount.py:35-39 | once `run` has written its keys, the mount command fails exactly when `hostname` or `share` is missing, with KeyError on `hostname` first |
| Mount.UmountCommandOf | pygmount/utils/mount.py:42 | `cmd_umount % share` is `umount <mountpoint>` |
| Mount.MaskHidesPassword | pygmount/utils/mount.py:193-196 | the logged mount command is the same whatever the domain password is |
| Mount.MaskExact | pygmount/utils/mount.py:193-196 | when nothing before the password holds `,password=`, the log line is `Mount command: `, the command up to `uid=<host user>`, then `,password=******"` |
| Mount.ExpandUserHome | pygmount/utils/mount.py:156-163 | `expanduser("~user/rest")` is the user's home without trailing slashes, then `/rest`; for an unknown user the path is unchanged |
| Mount.ExpandUserAbsolute | pygmount/utils/mount.py:156-163 | an absolute home directory gives an absolute expansion |
| Mount.ResolveMountpoint | pygmount/utils/mount.py:154-164 | without a mount point, a missing `hostname` or `share` raises KeyError (on `hostname` first); an absolute mount point is kept |
| Mount.DefaultMountpoint | pygmount/utils/mount.py:154-160 | a missing mount point becomes the host user's home, then `/hostname/share` |
| Mount.RelativeMountpoint | pygmount/utils/mount.py:161-164 | a relative mount point becomes the host user's home, then `/mountpoint` |
| Mount.MountpointAbsolute | pygmount/utils/mount.py:154-164 | when the host user's home is absolute, every resolved mount point is absolute |
| Mount.PrepareShare | pygmount/utils/mount.py:154-171 | the prepared share has its old keys plus `mountpoint`, `host_username`, `domain_username` and `domain_password`; the share's own `username` and `password` win over the typed-in ones; other keys are unchanged; it fails exactly when the mount point cannot be resolved |
| Mount.PrepareIdempotent | pygmount/utils/mount.py:154-171 | preparing a share again after its mount point came out absolute changes nothing |
| Mount.ProcessShare | pygmount/utils/mount.py:151-196 | one share raises exactly when it lacks `hostname` or `share`, and then with KeyError on one of them; otherwise it issues two commands and leaves the prepared share; nothing is logged unless verbose |
| Mount.ShareCommands | pygmount/utils/mount.py:183-192 | a complete share issues `umount <mountpoint>` and then its mount command |
| Mount.AfterError | pygmount/utils/mount.py:151-209 | after the first exception the loop stops, and the later shares are left as they are |
| Mount.AllSharesMounted | pygmount/utils/mount.py:151-196 | the loop over all shares ends without an exception exactly when every share has a `hostname` and a `share` |
| Mount.CompletedRun | pygmount/utils/mount.py:151-196 | after a complete run there are two commands per share, each share is its prepared form, and nothing is logged unless verbose |
| Mount.MountSmbShares.MountShares | pygmount/utils/mount.py:150-209 | the loop updates `samba_shares` in place and appends to the log, with the commands and the exception that `Loop` specifies |
| Mount.MountSmbShares.Run | pygmount/utils/mount.py:128-142 | exits with code 2 when the user name is cancelled or empty, and with code 3 when the password is; otherwise it runs the loop with the typed-in credentials, and the outcome is the loop's exception or normal completion |

## Left out

- `run_command`, `install_apt_package` and `MountSmbShares.run` of samba.py: they run subprocesses and the apt cache.
- The `config_file` property and its setter, which calls `os.path.expanduser`. The `required_packages` property and its setter are left out too; `set_shares` never reads them.
- ConfigParser: reading the file, lower-casing option names and merging the `DEFAULT` section. A section is modelled as its name and its items, in the order ConfigParser yields them.
- `requirements`, `set_shares` (the file lookup and `read_config`) and the GUI prompts and progress bars of mount.py. The two prompts become parameters of `Run`; `None` stands for a cancelled dialog.
- `Popen`, `wait` and `sleep`. `Run` returns the commands it would hand to the shell, in order, but no return codes. So the `result` list and the final `Risultati` log line are not modelled.
- The dry-run switch: the model is the run that issues its commands.
- `os.path.exists` and `os.makedirs`: the model neither creates the mount point nor logs `Mountpoint "…" not exist.`. An `OSError` from `os.makedirs` would also stop the loop; `Mount.AllSharesMounted` says "exactly when every share has a `hostname` and a `share`" only because that failure is left out.
- The `start run` log line and its timestamp.
- `os.path.expanduser` reads the password database. The model handles this as follows:
  - `Run` takes it as a function parameter.
  - `Mount.ExpandUser` is the POSIX definition over a map from user names to home directories. The empty name stands for `$HOME`.
  - `Mount.PosixExpandUser` ties the parameter to that definition.
- Samba.MountCifsWrapper.Command: a missing server or share makes `os.path.join` raise. The model follows Python 3's `os.path.join`, which raises `TypeError` for `None`.
- The order of the options: the model keeps dictionaries in insertion order, as Python 3.7+ does. Under Python 2 the order of the `-o` entries is the arbitrary order of a `dict`.
- Explicit `username=`/`password=` keys get no priority over credentials embedded in `hostname`: whichever item comes later wins (`Samba.EmbeddedCredentialsLastWriteWins`, `Samba.ExplicitKeyLastWriteWins`).
- `service` follows `os.path.join`: an absolute share discards the server (`Samba.ServiceJoin`).
- Mount.MountSmbShares.MountShares: the source updates each dictionary in `samba_shares` in place, and the same dictionaries may be shared elsewhere. The model keeps `samba_shares` as a sequence of map values and writes it back once the loop ends. The final state is the same, but aliasing of the dictionaries is not modelled.
