/**
 * The simulator's small string helpers (kitchen-simulator/.../Main.java):
 * parseArgs, toEnvKey, parseTemperature and firstNonNull. Command-line
 * arguments and environment keys are Java strings, modelled as `string`;
 * the maps firstNonNull reads are parsed JSON objects.
 */
module SimulatorCli {
  import opened Wrappers
  import opened Orders
  import JsonSpec

  // ---------------------------------------------------------------- parseArgs

  /** String.startsWith("--"). */
  predicate IsFlag(a: string) {
    |a| >= 2 && a[..2] == "--"
  }

  /** String.indexOf(c): the first position holding `c`, or -1 when there is none. */
  function IndexOf(s: string, c: char): (r: int)
    ensures -1 <= r < |s|
    ensures r == -1 <==> c !in s
    ensures r >= 0 ==> s[r] == c && c !in s[..r]
  {
    if s == [] then -1
    else if s[0] == c then 0
    else
      var r := IndexOf(s[1..], c);
      assert r >= 0 ==> s[..r + 1] == [s[0]] + s[1..][..r];
      if r == -1 then -1 else r + 1
  }

  /**
   * A flag without its leading `--`, split at its first `=` into the key and
   * the value written inline, when there is one.
   */
  function SplitFlag(a: string): (string, Option<string>)
    requires IsFlag(a)
  {
    var key := a[2..];
    var eq := IndexOf(key, '=');
    if eq >= 0 then (key[..eq], Some(key[eq + 1..])) else (key, None)
  }

  /**
   * parseArgs from argument `i` on, with the options found so far: a
   * non-flag is skipped, `--k=v` puts v, `--k v` puts v and consumes it, and
   * a bare `--k` puts "true".
   */
  function ArgsFrom(args: seq<string>, i: nat, out: map<string, string>): map<string, string>
    requires i <= |args|
    decreases |args| - i
  {
    if i == |args| then out
    else if !IsFlag(args[i]) then ArgsFrom(args, i + 1, out)
    else
      var (key, inline) := SplitFlag(args[i]);
      if inline.Some? then ArgsFrom(args, i + 1, out[key := inline.value])
      else if i + 1 < |args| && !IsFlag(args[i + 1]) then ArgsFrom(args, i + 2, out[key := args[i + 1]])
      else ArgsFrom(args, i + 1, out[key := "true"])
  }

  /** The options parseArgs finds in `args`. */
  function Options(args: seq<string>): map<string, string> {
    ArgsFrom(args, 0, map[])
  }

  /** parseArgs: one pass over the arguments, bumping the index past a consumed value. */
  method ParseArgs(args: seq<string>) returns (out: map<string, string>)
    ensures out == Options(args)
  {
    out := map[];
    var i := 0;
    while i < |args|
      invariant i <= |args|
      invariant ArgsFrom(args, i, out) == Options(args)
      decreases |args| - i
    {
      var a := args[i];
      if IsFlag(a) {
        var key := a[2..];
        var value := "true";
        var eq := IndexOf(key, '=');
        if eq >= 0 {
          value := key[eq + 1..];
          key := key[..eq];
        } else if i + 1 < |args| && !IsFlag(args[i + 1]) {
          i := i + 1;
          value := args[i];
        }
        out := out[key := value];
      }
      i := i + 1;
    }
  }

  /** Arguments after a prefix are read as they would be on their own. */
  lemma {:induction false} ArgsFromShift(prefix: seq<string>, rest: seq<string>, j: nat, out: map<string, string>)
    requires j <= |rest|
    ensures ArgsFrom(prefix + rest, |prefix| + j, out) == ArgsFrom(rest, j, out)
    decreases |rest| - j
  {
    var all := prefix + rest;
    var i := |prefix| + j;
    if j < |rest| {
      assert all[i] == rest[j];
      if i + 1 < |all| {
        assert all[i + 1] == rest[j + 1];
      }
      if IsFlag(rest[j]) {
        var (key, inline) := SplitFlag(rest[j]);
        if inline.Some? {
          ArgsFromShift(prefix, rest, j + 1, out[key := inline.value]);
        } else if j + 1 < |rest| && !IsFlag(rest[j + 1]) {
          ArgsFromShift(prefix, rest, j + 2, out[key := rest[j + 1]]);
        } else {
          ArgsFromShift(prefix, rest, j + 1, out[key := "true"]);
        }
      } else {
        ArgsFromShift(prefix, rest, j + 1, out);
      }
    }
  }

  /** Arguments that start with a flag are read after the ones before them, whatever those were. */
  lemma {:induction false} ArgsFromAppend(args: seq<string>, rest: seq<string>, i: nat, out: map<string, string>)
    requires i <= |args| && rest != [] && IsFlag(rest[0])
    ensures ArgsFrom(args + rest, i, out) == ArgsFrom(rest, 0, ArgsFrom(args, i, out))
    decreases |args| - i
  {
    var all := args + rest;
    if i == |args| {
      ArgsFromShift(args, rest, 0, out);
    } else {
      assert all[i] == args[i];
      assert all[i + 1] == if i + 1 < |args| then args[i + 1] else rest[0];
      if IsFlag(args[i]) {
        var (key, inline) := SplitFlag(args[i]);
        if inline.Some? {
          ArgsFromAppend(args, rest, i + 1, out[key := inline.value]);
        } else if i + 1 < |args| && !IsFlag(args[i + 1]) {
          ArgsFromAppend(args, rest, i + 2, out[key := args[i + 1]]);
        } else {
          ArgsFromAppend(args, rest, i + 1, out[key := "true"]);
        }
      } else {
        ArgsFromAppend(args, rest, i + 1, out);
      }
    }
  }

  /** A flag is never consumed as the value of the flag before it: what follows it is read on its own. */
  lemma OptionsAppend(args: seq<string>, rest: seq<string>)
    requires rest != [] && IsFlag(rest[0])
    ensures Options(args + rest) == ArgsFrom(rest, 0, Options(args))
  {
    ArgsFromAppend(args, rest, 0, map[]);
  }

  /** The key and value of `--key=value`, when the key has no `=`; the value may hold more. */
  lemma SplitInline(k: string, v: string)
    requires '=' !in k
    ensures IsFlag("--" + k + "=" + v) && SplitFlag("--" + k + "=" + v) == (k, Some(v))
  {
    var a := "--" + k + "=" + v;
    assert a[..2] == "--";
    var key := a[2..];
    assert key == k + "=" + v;
    assert key[|k|] == '=';
    assert key[..|k|] == k;
    var eq := IndexOf(key, '=');
    assert eq == |k|;
    assert key[|k| + 1..] == v;
  }

  /** The key of a bare `--key`, when it has no `=`. */
  lemma SplitBare(k: string)
    requires '=' !in k
    ensures IsFlag("--" + k) && SplitFlag("--" + k) == (k, None)
  {
    var a := "--" + k;
    assert a[..2] == "--";
    assert a[2..] == k;
  }

  /** `--key=value` puts `value` under `key`, over any earlier value: the last one wins. */
  lemma InlineOption(args: seq<string>, k: string, v: string)
    requires '=' !in k
    ensures Options(args + ["--" + k + "=" + v]) == Options(args)[k := v]
  {
    var f := "--" + k + "=" + v;
    SplitInline(k, v);
    OptionsAppend(args, [f]);
  }

  /** `--key value` puts `value` under `key` when the value does not itself start with `--`. */
  lemma SeparateOption(args: seq<string>, k: string, v: string)
    requires '=' !in k && !IsFlag(v)
    ensures Options(args + ["--" + k, v]) == Options(args)[k := v]
  {
    var f := "--" + k;
    SplitBare(k);
    OptionsAppend(args, [f, v]);
  }

  /** A bare `--key` that is last, or followed by another flag, puts "true" under `key`. */
  lemma BareOption(args: seq<string>, k: string, rest: seq<string>)
    requires '=' !in k && (rest == [] || IsFlag(rest[0]))
    ensures Options(args + ["--" + k] + rest) == ArgsFrom(rest, 0, Options(args)[k := "true"])
  {
    var f := "--" + k;
    SplitBare(k);
    assert args + [f] + rest == args + ([f] + rest);
    OptionsAppend(args, [f] + rest);
    if rest != [] {
      assert ([f] + rest)[1] == rest[0];
    }
    ArgsFromShift([f], rest, 0, Options(args)[k := "true"]);
  }

  /** A leading argument that is not a flag is skipped. */
  lemma SkipsNonFlag(a: string, args: seq<string>)
    requires !IsFlag(a)
    ensures Options([a] + args) == Options(args)
  {
    ArgsFromShift([a], args, 0, map[]);
  }

  /** Without any flag there are no options. */
  lemma {:induction false} NoFlagsNoOptions(args: seq<string>)
    requires forall i :: 0 <= i < |args| ==> !IsFlag(args[i])
    ensures Options(args) == map[]
  {
    if args != [] {
      assert args == [args[0]] + args[1..];
      SkipsNonFlag(args[0], args[1..]);
      NoFlagsNoOptions(args[1..]);
    }
  }

  // ---------------------------------------------------------------- toEnvKey

  /** Character.isUpperCase, for ASCII letters. */
  predicate IsUpper(c: char) {
    'A' <= c <= 'Z'
  }

  /** Character.isLowerCase, for ASCII letters. */
  predicate IsLower(c: char) {
    'a' <= c <= 'z'
  }

  /** Character.toUpperCase, for ASCII letters. */
  function ToUpper(c: char): (u: char)
    ensures !IsLower(u)
    ensures IsLower(c) ==> IsUpper(u)
  {
    if IsLower(c) then (c as int - 32) as char else c
  }

  /** Character.toLowerCase, for ASCII letters. */
  function ToLower(c: char): (l: char)
    ensures !IsUpper(l)
  {
    if IsUpper(c) then (c as int + 32) as char else c
  }

  /** What toEnvKey writes for one character: `_` and the character if upper case, else the character upper-cased. */
  function EnvUnit(c: char): string {
    if IsUpper(c) then ['_', c] else [ToUpper(c)]
  }

  /** toEnvKey's text: each character as EnvUnit writes it, in order. */
  function EnvKey(key: string): string {
    if key == [] then [] else EnvKey(key[..|key| - 1]) + EnvUnit(key[|key| - 1])
  }

  /** toEnvKey: a StringBuilder appended to once per character. */
  method ToEnvKey(key: string) returns (r: string)
    ensures r == EnvKey(key)
  {
    var sb := [];
    for i := 0 to |key|
      invariant sb == EnvKey(key[..i])
    {
      var c := key[i];
      if IsUpper(c) {
        sb := sb + ['_'] + [c];
      } else {
        sb := sb + [ToUpper(c)];
      }
      assert key[..i + 1][..i] == key[..i];
    }
    assert key[..|key|] == key;
    r := sb;
  }

  /** The number of upper-case characters in `s`. */
  function UpperCount(s: string): nat {
    if s == [] then 0 else UpperCount(s[..|s| - 1]) + (if IsUpper(s[|s| - 1]) then 1 else 0)
  }

  /** An environment key has no lower-case letter, and one character more than the key per upper-case one. */
  lemma {:induction false} EnvKeyShape(key: string)
    ensures forall i :: 0 <= i < |EnvKey(key)| ==> !IsLower(EnvKey(key)[i])
    ensures |EnvKey(key)| == |key| + UpperCount(key)
  {
    if key != [] {
      var init := key[..|key| - 1];
      EnvKeyShape(init);
      var a, b := EnvKey(init), EnvUnit(key[|key| - 1]);
      forall i | 0 <= i < |a + b|
        ensures !IsLower((a + b)[i])
      {
        if i >= |a| {
          assert (a + b)[i] == b[i - |a|];
        }
      }
    }
  }

  /** The environment key read front to back: the first character's unit, then the rest's key. */
  lemma {:induction false} EnvKeyCons(key: string)
    requires key != []
    ensures EnvKey(key) == EnvUnit(key[0]) + EnvKey(key[1..])
    decreases |key|
  {
    if |key| > 1 {
      var init := key[..|key| - 1];
      EnvKeyCons(init);
      assert init[1..] == key[1..][..|key[1..]| - 1];
      assert key[1..][|key[1..]| - 1] == key[|key| - 1];
    } else {
      assert key[..0] == [] && key[1..] == [];
    }
  }

  /** Reads an environment key back as a key: `_X` as `X`, any other character lower-cased. */
  function KeyOfEnv(env: string): string
    decreases |env|
  {
    if env == [] then []
    else if env[0] == '_' && |env| >= 2 then [env[1]] + KeyOfEnv(env[2..])
    else [ToLower(env[0])] + KeyOfEnv(env[1..])
  }

  /**
   * toEnvKey loses nothing for keys in camel case without underscores: the
   * key is recovered from its environment form.
   */
  lemma {:induction false} EnvKeyInverse(key: string)
    requires '_' !in key
    ensures KeyOfEnv(EnvKey(key)) == key
    decreases |key|
  {
    if key != [] {
      EnvKeyCons(key);
      assert key == [key[0]] + key[1..];
      EnvUnitReads(key[0], EnvKey(key[1..]));
      EnvKeyInverse(key[1..]);
    }
  }

  /** One character's unit reads back as that character, whatever follows it. */
  lemma EnvUnitReads(c: char, rest: string)
    requires c != '_'
    ensures KeyOfEnv(EnvUnit(c) + rest) == [c] + KeyOfEnv(rest)
  {
    var u := EnvUnit(c);
    if IsUpper(c) {
      assert (u + rest)[2..] == rest;
    } else {
      assert (u + rest)[1..] == rest;
    }
  }

  /** The key the simulator reads its orders endpoint from. */
  lemma OrdersUrlEnvKey()
    ensures EnvKey("ordersUrl") == "ORDERS_URL"
  {
    assert "ordersUrl"[..8] == "ordersUr";
    assert "ordersUr"[..7] == "ordersU";
    assert "ordersU"[..6] == "orders";
    assert "orders"[..5] == "order";
    assert "order"[..4] == "orde";
    assert "orde"[..3] == "ord";
    assert "ord"[..2] == "or";
    assert "or"[..1] == "o";
    assert "o"[..0] == "";
  }

  // ---------------------------------------------------------------- parseTemperature

  /** String.trim: drops leading and trailing characters up to and including the space. */
  function Trim(s: string): string {
    TrimEnd(TrimStart(s))
  }

  function TrimStart(s: string): (t: string)
    ensures |t| <= |s|
  {
    if s != [] && s[0] <= ' ' then TrimStart(s[1..]) else s
  }

  function TrimEnd(s: string): (t: string)
    ensures |t| <= |s|
  {
    if s != [] && s[|s| - 1] <= ' ' then TrimEnd(s[..|s| - 1]) else s
  }

  /** String.toUpperCase, for ASCII letters. */
  function Upper(s: string): (u: string)
    ensures |u| == |s| && forall i :: 0 <= i < |s| ==> u[i] == ToUpper(s[i])
  {
    seq(|s|, i requires 0 <= i < |s| => ToUpper(s[i]))
  }

  /** String.toLowerCase, for ASCII letters. */
  function Lower(s: string): (l: string)
    ensures |l| == |s| && forall i :: 0 <= i < |s| ==> l[i] == ToLower(s[i])
  {
    seq(|s|, i requires 0 <= i < |s| => ToLower(s[i]))
  }

  /** Why parseTemperature throws. */
  datatype TemperatureError = MissingTemperature | UnknownTemperature(text: string)

  /** The names parseTemperature accepts, trimmed and upper-cased. */
  const TemperatureNames: set<string> := {"HOT", "COLD", "ROOM", "AMBIENT", "FROZEN"}

  /** The enum constant's own name. */
  function Name(t: Temperature): string {
    match t
    case Hot => "HOT"
    case Cold => "COLD"
    case Frozen => "FROZEN"
    case Room => "ROOM"
  }

  /**
   * parseTemperature: null is missing; otherwise the trimmed, upper-cased
   * text names the temperature, AMBIENT standing for ROOM; anything else is
   * unknown and reported as given.
   */
  function ParseTemperature(s: Option<string>): (r: Result<Temperature, TemperatureError>)
    ensures s.None? ==> r == Err(MissingTemperature)
    ensures s.Some? ==> (r.Ok? <==> Upper(Trim(s.value)) in TemperatureNames)
    ensures s.Some? && r.Err? ==> r.error == UnknownTemperature(s.value)
    ensures r.Ok? ==> Upper(Trim(s.value)) == Name(r.value) || (r.value == Room && Upper(Trim(s.value)) == "AMBIENT")
  {
    match s
    case None => Err(MissingTemperature)
    case Some(text) =>
      var v := Upper(Trim(text));
      if v == "HOT" then Ok(Hot)
      else if v == "COLD" then Ok(Cold)
      else if v == "ROOM" || v == "AMBIENT" then Ok(Room)
      else if v == "FROZEN" then Ok(Frozen)
      else Err(UnknownTemperature(text))
  }

  /** Trimming skips leading characters up to the space, and nothing past the first other character. */
  lemma {:induction false} TrimStartPadding(pad: string, x: string)
    requires forall i :: 0 <= i < |pad| ==> pad[i] <= ' '
    requires x != [] && x[0] > ' '
    ensures TrimStart(pad + x) == x
    decreases |pad|
  {
    if pad != [] {
      assert (pad + x)[1..] == pad[1..] + x;
      TrimStartPadding(pad[1..], x);
    } else {
      assert pad + x == x;
    }
  }

  /** Trimming drops trailing characters up to the space, and nothing before the last other character. */
  lemma {:induction false} TrimEndPadding(x: string, pad: string)
    requires forall i :: 0 <= i < |pad| ==> pad[i] <= ' '
    requires x != [] && x[|x| - 1] > ' '
    ensures TrimEnd(x + pad) == x
    decreases |pad|
  {
    if pad != [] {
      assert (x + pad)[..|x + pad| - 1] == x + pad[..|pad| - 1];
      TrimEndPadding(x, pad[..|pad| - 1]);
    } else {
      assert x + pad == x;
    }
  }

  /** String.trim removes exactly the padding around text that neither starts nor ends with a blank. */
  lemma TrimPadding(pad: string, x: string, pad': string)
    requires forall i :: 0 <= i < |pad| ==> pad[i] <= ' '
    requires forall i :: 0 <= i < |pad'| ==> pad'[i] <= ' '
    requires x != [] && x[0] > ' ' && x[|x| - 1] > ' '
    ensures Trim(pad + x + pad') == x
  {
    assert pad + x + pad' == pad + (x + pad');
    TrimStartPadding(pad, x + pad');
    TrimEndPadding(x, pad');
  }

  /**
   * Each temperature's own name, in any mix of upper and lower case and with
   * blanks around it, parses back to it; so does AMBIENT, to ROOM.
   */
  lemma TemperatureNameRoundTrip(t: Temperature, pad: string, pad': string, lower: set<nat>)
    requires forall i :: 0 <= i < |pad| ==> pad[i] <= ' '
    requires forall i :: 0 <= i < |pad'| ==> pad'[i] <= ' '
    ensures ParseTemperature(Some(pad + Spelled(Name(t), lower) + pad')) == Ok(t)
    ensures ParseTemperature(Some(pad + Spelled("AMBIENT", lower) + pad')) == Ok(Room)
  {
    SpelledReads(Name(t), lower, pad, pad');
    SpelledReads("AMBIENT", lower, pad, pad');
  }

  /** `name` with the letters at the positions in `lower` lower-cased. */
  function Spelled(name: string, lower: set<nat>): (s: string)
    ensures |s| == |name|
  {
    seq(|name|, i requires 0 <= i < |name| => if i in lower then ToLower(name[i]) else name[i])
  }

  /** An upper-case name, however spelled and padded, trims and upper-cases back to itself. */
  lemma SpelledReads(name: string, lower: set<nat>, pad: string, pad': string)
    requires name in TemperatureNames
    requires forall i :: 0 <= i < |pad| ==> pad[i] <= ' '
    requires forall i :: 0 <= i < |pad'| ==> pad'[i] <= ' '
    ensures Upper(Trim(pad + Spelled(name, lower) + pad')) == name
  {
    var x := Spelled(name, lower);
    SpelledUpper(name, lower);
    TrimPadding(pad, x, pad');
  }

  /** Lower-casing some letters of an upper-case name and upper-casing the result gives the name back. */
  lemma SpelledUpper(name: string, lower: set<nat>)
    requires name in TemperatureNames
    ensures Upper(Spelled(name, lower)) == name
    ensures Spelled(name, lower)[0] > ' ' && Spelled(name, lower)[|name| - 1] > ' '
  {
    assert forall i :: 0 <= i < |name| ==> IsUpper(name[i]);
  }

  // ---------------------------------------------------------------- firstNonNull

  /** m.containsKey(k) && m.get(k) != null, on a parsed JSON object. */
  predicate Present(m: seq<(JsonSpec.Text, JsonSpec.Value)>, k: JsonSpec.Text) {
    JsonSpec.Lookup(m, k).Some? && JsonSpec.Lookup(m, k).value != JsonSpec.Null
  }

  /** firstNonNull: the value of the first listed key present with a non-null value, else null. */
  function FirstNonNull(m: seq<(JsonSpec.Text, JsonSpec.Value)>, keys: seq<JsonSpec.Text>): (r: Option<JsonSpec.Value>)
    ensures r.Some? ==> r.value != JsonSpec.Null
  {
    if keys == [] then None
    else if Present(m, keys[0]) then JsonSpec.Lookup(m, keys[0])
    else FirstNonNull(m, keys[1..])
  }

  /**
   * firstNonNull finds nothing exactly when no listed key is present; what it
   * finds is the value of a listed key that is present, with none before it.
   */
  lemma {:induction false} FirstNonNullFirst(m: seq<(JsonSpec.Text, JsonSpec.Value)>, keys: seq<JsonSpec.Text>)
    ensures FirstNonNull(m, keys).None? <==> forall j :: 0 <= j < |keys| ==> !Present(m, keys[j])
    ensures FirstNonNull(m, keys).Some? ==>
              exists j :: 0 <= j < |keys| && Present(m, keys[j]) && FirstNonNull(m, keys) == JsonSpec.Lookup(m, keys[j]) &&
                (forall i :: 0 <= i < j ==> !Present(m, keys[i]))
  {
    if keys != [] && !Present(m, keys[0]) {
      FirstNonNullFirst(m, keys[1..]);
      assert forall j :: 0 < j < |keys| ==> keys[j] == keys[1..][j - 1];
      if FirstNonNull(m, keys).Some? {
        var j :| 0 <= j < |keys[1..]| && Present(m, keys[1..][j]) && FirstNonNull(m, keys[1..]) == JsonSpec.Lookup(m, keys[1..][j]) &&
          (forall i :: 0 <= i < j ==> !Present(m, keys[1..][i]));
        assert Present(m, keys[j + 1]);
        assert forall i :: 0 <= i < j + 1 ==> !Present(m, keys[i]);
      }
    } else if keys != [] {
      assert Present(m, keys[0]);
    }
  }
}
