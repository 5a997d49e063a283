/** Environment arrays, and how the descriptor of the server's socket gets from one
    program image to the next through them. */
module Environment {

  datatype Option<T> = None | Some(value: T)

  /** An environment array holds strings up to its null pointer. */
  datatype Entry = Null | Text(text: string)

  type Env = seq<Entry>

  /** The value of DR_SS_ENV_FD: the name of the variable. */
  const FD_NAME: string := "DR_SS_ENV_FD_VAR"

  // ----- Decimal numerals -----

  const INT_MAX: nat := 0x7FFF_FFFF

  predicate IsDigit(c: char) {
    '0' <= c <= '9'
  }

  function DigitValue(c: char): nat
    requires IsDigit(c)
  {
    c as nat - '0' as nat
  }

  /** std::to_string for a descriptor. */
  function Decimal(n: nat): (s: string)
    ensures s != [] && forall i | 0 <= i < |s| :: IsDigit(s[i])
  {
    var last := ['0' + (n % 10) as char];
    if n < 10 then last else Decimal(n / 10) + last
  }

  function DigitsValue(s: string): nat
    requires forall i | 0 <= i < |s| :: IsDigit(s[i])
  {
    if s == [] then 0 else 10 * DigitsValue(s[..|s| - 1]) + DigitValue(s[|s| - 1])
  }

  predicate IsSpace(c: char) {
    c == ' ' || '\t' <= c <= '\r'
  }

  function SkipSpaces(s: string): string {
    if s != [] && IsSpace(s[0]) then SkipSpaces(s[1..]) else s
  }

  function DigitPrefix(s: string): (digits: string)
    ensures forall i | 0 <= i < |digits| :: IsDigit(digits[i])
  {
    if s != [] && IsDigit(s[0]) then [s[0]] + DigitPrefix(s[1..]) else []
  }

  /** std::stoi: white space, a sign, digits, and whatever follows. It throws when
      there is no digit or the number does not fit an int. */
  function Stoi(s: string): Option<int> {
    SignedNumber(SkipSpaces(s))
  }

  function SignedNumber(t: string): Option<int> {
    if t != [] && (t[0] == '-' || t[0] == '+') then Number(t[0] == '-', DigitPrefix(t[1..]))
    else Number(false, DigitPrefix(t))
  }

  function Number(negative: bool, digits: string): Option<int>
    requires forall i | 0 <= i < |digits| :: IsDigit(digits[i])
  {
    if digits == [] then None
    else
      var n := DigitsValue(digits);
      if n > (if negative then INT_MAX + 1 else INT_MAX) then None
      else Some(if negative then 0 - n else n)
  }

  lemma {:induction false} DecimalValue(n: nat)
    ensures DigitsValue(Decimal(n)) == n
  {
    if n < 10 {
      assert Decimal(n)[..0] == [];
    } else {
      DecimalValue(n / 10);
      assert Decimal(n)[..|Decimal(n)| - 1] == Decimal(n / 10);
    }
  }

  /** The white space and the digits parsing goes by. */
  lemma CharacterClasses(c: char)
    ensures IsSpace(c) <==> c in {' ', '\t', '\n', '\U{000B}', '\U{000C}', '\r'}
    ensures IsDigit(c) <==> c in {'0', '1', '2', '3', '4', '5', '6', '7', '8', '9'}
  {
  }

  predicate IsSign(sign: string) {
    sign == "" || sign == "+" || sign == "-"
  }

  /** What it makes of any text: white space, a sign, digits and the rest. It takes
      exactly the numbers an int holds. */
  lemma StoiReads(spaces: string, sign: string, digits: string, rest: string)
    requires forall i | 0 <= i < |spaces| :: IsSpace(spaces[i])
    requires forall i | 0 <= i < |digits| :: IsDigit(digits[i])
    requires IsSign(sign) && (rest != "" ==> !IsDigit(rest[0]))
    requires sign == digits == "" && rest != "" ==> !IsSpace(rest[0]) && rest[0] != '+' && rest[0] != '-'
    ensures Stoi(spaces + (sign + (digits + rest))) == NumberRead(sign, digits)
  {
    SignedNumberReads(sign, digits, rest);
    SkipSpacesAll(spaces, sign + (digits + rest));
  }

  function NumberRead(sign: string, digits: string): Option<int>
    requires forall i | 0 <= i < |digits| :: IsDigit(digits[i])
  {
    var n: int := if sign == "-" then 0 - DigitsValue(digits) else DigitsValue(digits);
    if digits != "" && -2147483648 <= n <= 2147483647 then Some(n) else None
  }

  lemma SignedNumberReads(sign: string, digits: string, rest: string)
    requires forall i | 0 <= i < |digits| :: IsDigit(digits[i])
    requires IsSign(sign) && (rest != "" ==> !IsDigit(rest[0]))
    requires sign == digits == "" && rest != "" ==> !IsSpace(rest[0]) && rest[0] != '+' && rest[0] != '-'
    ensures var t := sign + (digits + rest);
            SignedNumber(t) == NumberRead(sign, digits) && (t != "" ==> !IsSpace(t[0]))
  {
    var u := digits + rest;
    DigitPrefixStops(digits, rest);
    if sign == "" {
      assert sign + u == u;
      assert u != [] ==> u[0] == if digits != [] then digits[0] else rest[0];
    } else {
      assert (sign + u)[0] == sign[0] && (sign + u)[1..] == u;
    }
  }

  lemma {:induction false} SkipSpacesAll(spaces: string, t: string)
    requires forall i | 0 <= i < |spaces| :: IsSpace(spaces[i])
    requires t != [] ==> !IsSpace(t[0])
    ensures SkipSpaces(spaces + t) == t
  {
    if spaces == [] {
      assert spaces + t == t;
    } else {
      SkipSpacesAll(spaces[1..], t);
      assert (spaces + t)[1..] == spaces[1..] + t;
    }
  }

  lemma {:induction false} DigitPrefixStops(digits: string, rest: string)
    requires forall i | 0 <= i < |digits| :: IsDigit(digits[i])
    requires rest != [] ==> !IsDigit(rest[0])
    ensures DigitPrefix(digits + rest) == digits
  {
    if digits == [] {
      assert digits + rest == rest;
    } else {
      DigitPrefixStops(digits[1..], rest);
      assert (digits + rest)[1..] == digits[1..] + rest;
    }
  }

  /** Printing a descriptor and parsing it gives it back. */
  lemma StoiDecimal(n: nat)
    requires n <= INT_MAX
    ensures Stoi(Decimal(n)) == Some(n)
  {
    DecimalValue(n);
    StoiReads("", "", Decimal(n), "");
    assert "" + ("" + (Decimal(n) + "")) == Decimal(n);
  }

  // ----- Looking up and rewriting -----

  /** The entry starts with the name; nothing is said of what follows it. */
  predicate HasPrefix(e: Entry) {
    e.Text? && FD_NAME <= e.text
  }

  /** That is, its first characters are those of the name, all of them. */
  lemma HasPrefixIff(e: Entry)
    ensures HasPrefix(e)
            <==> e.Text? && |e.text| >= 16 && forall j | 0 <= j < 16 :: e.text[j] == "DR_SS_ENV_FD_VAR"[j]
  {
  }

  /** The entry is a setting of this variable. */
  predicate Sets(e: Entry, name: string) {
    e.Text? && name + "=" <= e.text
  }

  /** Where the search loop stops: the first entry with the prefix, if it comes
      before the null pointer. */
  function Find(env: Env): (k: Option<nat>)
    ensures k.Some? <==> exists i | 0 <= i < |env| :: HasPrefix(env[i]) && Null !in env[..i]
    ensures k.Some? ==>
              && k.value < |env| && HasPrefix(env[k.value]) && Null !in env[..k.value]
              && forall i | 0 <= i < k.value :: !HasPrefix(env[i])
  {
    if env == [] || env[0].Null? then None
    else if HasPrefix(env[0]) then Some(0)
    else
      var k := Find(env[1..]);
      BeforeRest(env);
      if k.Some? then Some(k.value + 1) else None
  }

  lemma BeforeRest(env: Env)
    requires env != [] && env[0].Text?
    ensures forall i | 1 <= i < |env| :: env[i] == env[1..][i - 1] && (Null in env[..i] <==> Null in env[1..][..i - 1])
  {
    forall i | 1 <= i < |env|
      ensures env[i] == env[1..][i - 1] && (Null in env[..i] <==> Null in env[1..][..i - 1])
    {
      assert env[..i] == [env[0]] + env[1..][..i - 1];
    }
  }

  function GetEnv(env: Env, name: string): Option<string> {
    if env == [] || env[0].Null? then None
    else if Sets(env[0], name) then Some(env[0].text[|name| + 1..])
    else GetEnv(env[1..], name)
  }

  function Setting(fd: string): Entry {
    Text(FD_NAME + "=" + fd)
  }

  /** What on_execve makes of the environment. */
  function Rewrite(env: Env, fd: string): (env': Env)
    requires Find(env).Some?
    ensures |env'| == |env|
  {
    env[Find(env).value := Setting(fd)]
  }

  /** An entry that is shorter than the name or differs from it somewhere is left
      alone, and so is every entry after the first that does not. */
  lemma RewriteIsLocal(env: Env, fd: string, i: nat)
    requires Find(env).Some? && i < |env|
    requires || env[i].Null? || |env[i].text| < 16
             || (exists j | 0 <= j < 16 :: env[i].text[j] != "DR_SS_ENV_FD_VAR"[j])
             || (exists h | 0 <= h < i :: HasPrefix(env[h]))
    ensures Rewrite(env, fd)[i] == env[i]
  {
    HasPrefixIff(env[i]);
  }

  lemma SetsImpliesPrefix(e: Entry)
    ensures Sets(e, FD_NAME) ==> HasPrefix(e)
  {
    if Sets(e, FD_NAME) {
      assert e.text[..|FD_NAME|] == (FD_NAME + "=")[..|FD_NAME|];
    }
  }

  /** A variable is set iff some entry before the null pointer sets it. */
  lemma {:induction false} GetEnvNone(env: Env, name: string)
    ensures GetEnv(env, name).None? <==> forall k | 0 <= k < |env| && Null !in env[..k + 1] :: !Sets(env[k], name)
  {
    if env == [] {
    } else if env[0].Null? {
      forall k | 0 <= k < |env|
        ensures Sets(env[k], name) ==> Null in env[..k + 1]
      {
        assert env[..k + 1][0] == Null;
      }
    } else {
      GetEnvNone(env[1..], name);
      assert forall k | 0 <= k < |env[1..]| ::
          env[1..][k] == env[k + 1] && env[..k + 2] == [env[0]] + env[1..][..k + 1];
      assert env[..1] == [env[0]];
    }
  }

  lemma {:induction false} GetEnvAt(env: Env, name: string, k: nat)
    requires k < |env| && Null !in env[..k + 1] && Sets(env[k], name)
    requires forall i | 0 <= i < k :: !Sets(env[i], name)
    ensures GetEnv(env, name) == Some(env[k].text[|name| + 1..])
  {
    assert env[0] in env[..k + 1];
    if k == 0 {
    } else {
      assert forall e | e in env[1..][..k] :: e in env[..k + 1];
      GetEnvAt(env[1..], name, k - 1);
    }
  }

  /** Whatever environment the target hands to execve, as long as the search finds
      something, the next image reads exactly the descriptor written. */
  lemma RewriteHandsOff(env: Env, fd: string)
    requires Find(env).Some?
    ensures GetEnv(Rewrite(env, fd), FD_NAME) == Some(fd)
  {
    var k := Find(env).value;
    var env' := Rewrite(env, fd);
    assert env'[..k + 1] == env[..k] + [Setting(fd)];
    forall i | 0 <= i < k
      ensures !Sets(env'[i], FD_NAME)
    {
      SetsImpliesPrefix(env[i]);
    }
    assert (FD_NAME + "=" + fd)[..|FD_NAME| + 1] == FD_NAME + "=";
    GetEnvAt(env', FD_NAME, k);
    assert Setting(fd).text[|FD_NAME| + 1..] == fd;
  }

  /** Running on_execve again, as the event after a failed call does, changes nothing. */
  lemma RewriteIdempotent(env: Env, fd: string)
    requires Find(env).Some?
    ensures Find(Rewrite(env, fd)) == Find(env)
    ensures Rewrite(Rewrite(env, fd), fd) == Rewrite(env, fd)
  {
    var k, env' := Find(env).value, Rewrite(env, fd);
    assert Sets(Setting(fd), FD_NAME);
    SetsImpliesPrefix(Setting(fd));
    FindIs(env', k);
  }

  /** The search ends at the first entry with the prefix and at no other. */
  lemma FindIs(env: Env, k: nat)
    requires k < |env| && HasPrefix(env[k]) && Null !in env[..k]
    requires forall i | 0 <= i < k :: !HasPrefix(env[i])
    ensures Find(env) == Some(k)
  {
    var k' := Find(env).value;
    assert HasPrefix(env[k']);
  }

  /** Every entry that is not a setting of this variable is left alone. */
  predicate OthersKept(env: Env, env': Env)
    requires |env'| == |env|
  {
    forall i | 0 <= i < |env| && !Sets(env[i], FD_NAME) :: env'[i] == env[i]
  }

  /** The search compares only the name, not the equals sign after it. So another
      variable is overwritten when, and only when, the first entry with the prefix
      is not a setting of this variable. */
  lemma OthersKeptIff(env: Env, fd: string)
    requires Find(env).Some?
    ensures OthersKept(env, Rewrite(env, fd)) <==> Sets(env[Find(env).value], FD_NAME)
  {
  }

  /** An environment in which that happens. */
  lemma OtherVariableLost()
    ensures var env := [Text("DR_SS_ENV_FD_VARS=x"), Text("DR_SS_ENV_FD_VAR=3"), Null];
            && Find(env).Some? && !OthersKept(env, Rewrite(env, "3"))
  {
    var env := [Text("DR_SS_ENV_FD_VARS=x"), Text("DR_SS_ENV_FD_VAR=3"), Null];
    assert env[..0] == [] && HasPrefix(env[0]);
    assert env[0].text[16] == 'S' && (FD_NAME + "=")[16] == '=';
    OthersKeptIff(env, "3");
  }

  // ----- From image to image -----

  /** A program image after setup: the socket descriptor it uses, and what its own
      environment says the descriptor is. */
  datatype Image = Image(sock: int, fdText: string) | Failed

  /** What connecting and then recording the descriptor come to, should setup do
      them: the new descriptor, if there is one, and whether it could be recorded. */
  datatype Attempt = Attempt(connected: Option<nat>, recorded: bool)

  /** setup: an empty value makes it connect, which yields a new descriptor. */
  function Setup(fdText: Option<string>, attempt: Attempt): Image {
    match fdText
    case None => Failed
    case Some(s) =>
      if s == [] then
        match attempt
        case Attempt(Some(fd), true) => Image(fd, Decimal(fd))
        case _ => Failed
      else
        var n := Stoi(s);
        if n.None? then Failed else Image(n.value, s)
  }

  /** The last image of a chain of execves with these environments, each image
      attempting what it attempts. */
  function LastImage(first: Image, envs: seq<Env>, attempts: seq<Attempt>): Image
    requires |attempts| == |envs|
    decreases |envs|
  {
    if envs == [] then first
    else if first.Failed? || Find(envs[0]).None? then Failed
    else
      var next := Setup(GetEnv(Rewrite(envs[0], first.fdText), FD_NAME), attempts[0]);
      LastImage(next, envs[1..], attempts[1..])
  }

  /** Descriptor hand-off: however many execves follow, with whatever environments
      the search gets through, the last image uses the descriptor the first one
      connected, and no later image makes a connection of its own. */
  lemma {:induction false} DescriptorHandOff(fd: nat, envs: seq<Env>, attempts: seq<Attempt>)
    requires fd <= INT_MAX && |attempts| == |envs|
    ensures LastImage(Setup(Some(""), Attempt(Some(fd), true)), envs, attempts) == Image(fd, Decimal(fd))
            <==> forall i | 0 <= i < |envs| :: Find(envs[i]).Some?
    decreases |envs|
  {
    if envs == [] {
    } else if Find(envs[0]).None? {
    } else {
      RewriteHandsOff(envs[0], Decimal(fd));
      StoiDecimal(fd);
      DescriptorHandOff(fd, envs[1..], attempts[1..]);
      assert envs == [envs[0]] + envs[1..];
    }
  }

  /** A program that passes an environment without the variable, such as one it has
      cleared, runs the search past the null pointer, and its chain ends there. */
  lemma ClearedEnvironmentFails(fd: nat, attempt: Attempt)
    ensures Find([Null]).None?
    ensures LastImage(Setup(Some(""), Attempt(Some(fd), true)), [[Null]], [attempt]) == Failed
  {
  }
}
