/** The Ubermelon customer store: the `Customer` record, the reading of the
    pipe-separated customer file into a table keyed by email, and the lookup
    by email. The file is given as its sequence of lines. */
module Customers {
  import opened Wrappers

  /** A customer; its fields are set once, by the constructor. */
  datatype Customer = Customer(firstName: string, lastName: string, email: string, password: string)

  /** A line whose split does not give exactly four fields. */
  datatype ParseError = WrongFieldCount(count: nat)

  /** Why reading the file fails: the index of the first malformed line and its field count. */
  datatype ReadError = MalformedLine(lineIndex: nat, count: nat)

  /** A lookup of an email the table does not hold. */
  datatype LookupError = NoSuchEmail(email: string)

  // ---------------------------------------------------------------------------
  // __repr__

  /** `"<Customer: first last, password>"`: the first name, last name and
      password in that order; the email is not shown. */
  function Repr(c: Customer): (r: string)
    ensures |r| == |c.firstName| + |c.lastName| + |c.password| + 15
    ensures r[..11] == "<Customer: " && r[|r| - 1] == '>'
    ensures var f, l := |c.firstName|, |c.lastName|;
            && r[11..11 + f] == c.firstName
            && r[11 + f] == ' '
            && r[12 + f..12 + f + l] == c.lastName
            && r[12 + f + l..14 + f + l] == ", "
            && r[14 + f + l..|r| - 1] == c.password
  {
    "<Customer: " + c.firstName + " " + c.lastName + ", " + c.password + ">"
  }

  /** The text shown for a customer does not depend on the email. */
  lemma ReprOmitsEmail(c: Customer, email: string)
    ensures Repr(c.(email := email)) == Repr(c)
  {
  }

  // ---------------------------------------------------------------------------
  // str.strip()

  /** The characters that Python 2's `str.strip()` removes. */
  predicate IsSpace(ch: char)
  {
    ch == ' ' || ch == '\t' || ch == '\n' || ch == '\r' || ch == '\U{000B}' || ch == '\U{000C}'
  }

  predicate AllSpace(s: string)
  {
    forall k :: 0 <= k < |s| ==> IsSpace(s[k])
  }

  /** Neither end of `s` is whitespace. */
  predicate Trimmed(s: string)
  {
    s == [] || (!IsSpace(s[0]) && !IsSpace(s[|s| - 1]))
  }

  /** `s` without its leading whitespace. */
  function StripLeft(s: string): (r: string)
    ensures |r| <= |s| && r == s[|s| - |r|..]
    ensures AllSpace(s[..|s| - |r|])
    ensures r == [] || !IsSpace(r[0])
    decreases |s|
  {
    if s != [] && IsSpace(s[0]) then StripLeft(s[1..]) else s
  }

  /** `s` without its trailing whitespace. */
  function StripRight(s: string): (r: string)
    ensures |r| <= |s| && r == s[..|r|]
    ensures AllSpace(s[|r|..])
    ensures r == [] || !IsSpace(r[|r| - 1])
    decreases |s|
  {
    if s != [] && IsSpace(s[|s| - 1]) then StripRight(s[..|s| - 1]) else s
  }

  /** `line.strip()`. */
  function Strip(s: string): (r: string)
    ensures Trimmed(r)
  {
    StripRight(StripLeft(s))
  }

  /** `Strip` removes only whitespace, and only from the two ends: its result is
      a slice of the input with whitespace before and after it. */
  lemma StripSlice(s: string)
    ensures exists i :: 0 <= i <= |s| - |Strip(s)| && Strip(s) == s[i..i + |Strip(s)|]
                        && AllSpace(s[..i]) && AllSpace(s[i + |Strip(s)|..])
  {
    var l := StripLeft(s);
    var r := StripRight(l);
    var i := |s| - |l|;
    assert r == s[i..i + |r|] && AllSpace(s[..i]);
    assert s[i + |r|..] == l[|r|..];
  }

  lemma {:induction false} StripLeftSpaces(pre: string, rest: string)
    requires AllSpace(pre) && (rest == [] || !IsSpace(rest[0]))
    ensures StripLeft(pre + rest) == rest
    decreases |pre|
  {
    if pre == [] {
      assert pre + rest == rest;
    } else {
      assert (pre + rest)[1..] == pre[1..] + rest;
      StripLeftSpaces(pre[1..], rest);
    }
  }

  lemma {:induction false} StripRightSpaces(rest: string, post: string)
    requires AllSpace(post) && (rest == [] || !IsSpace(rest[|rest| - 1]))
    ensures StripRight(rest + post) == rest
    decreases |post|
  {
    if post == [] {
      assert rest + post == rest;
    } else {
      var s := rest + post;
      assert s[..|s| - 1] == rest + post[..|post| - 1];
      StripRightSpaces(rest, post[..|post| - 1]);
    }
  }

  /** Strip removes exactly the surrounding whitespace of a trimmed text. */
  lemma StripFramed(pre: string, t: string, post: string)
    requires AllSpace(pre) && Trimmed(t) && AllSpace(post)
    ensures Strip(pre + t + post) == t
  {
    if t == [] {
      assert pre + t + post == pre + post;
      assert AllSpace(pre + post);
      StripLeftSpaces(pre + post, []);
      assert pre + post + [] == pre + post;
    } else {
      assert pre + t + post == pre + (t + post);
      StripLeftSpaces(pre, t + post);
      StripRightSpaces(t, post);
    }
  }

  // ---------------------------------------------------------------------------
  // str.split(sep)

  /** `s.split(sep)`: the maximal runs between separators, always at least one. */
  function Split(s: string, sep: char): (r: seq<string>)
    ensures |r| >= 1
    ensures forall k :: 0 <= k < |r| ==> sep !in r[k]
    decreases |s|
  {
    if s == [] then [[]]
    else
      var rest := Split(s[1..], sep);
      if s[0] == sep then [[]] + rest
      else [[s[0]] + rest[0]] + rest[1..]
  }

  /** `sep.join(fields)`. */
  function Join(fields: seq<string>, sep: char): string
    requires |fields| >= 1
    decreases |fields|
  {
    if |fields| == 1 then fields[0]
    else fields[0] + [sep] + Join(fields[1..], sep)
  }

  /** Splitting loses nothing: joining the fields back gives the text. */
  lemma {:induction false} JoinSplit(s: string, sep: char)
    ensures Join(Split(s, sep), sep) == s
    decreases |s|
  {
    if s != [] {
      var rest := Split(s[1..], sep);
      JoinSplit(s[1..], sep);
      if s[0] == sep {
        assert ([[]] + rest)[1..] == rest;
      } else {
        var r := [[s[0]] + rest[0]] + rest[1..];
        if |rest| > 1 {
          assert r[1..] == rest[1..];
        }
      }
    }
  }

  /** Splitting a field with no separator in it, followed by more text. */
  lemma {:induction false} SplitField(w: string, t: string, sep: char)
    requires sep !in w
    ensures Split(w + t, sep) == [w + Split(t, sep)[0]] + Split(t, sep)[1..]
    decreases |w|
  {
    if w != [] {
      assert (w + t)[1..] == w[1..] + t;
      SplitField(w[1..], t, sep);
      assert [w[0]] + (w[1..] + Split(t, sep)[0]) == w + Split(t, sep)[0];
    } else {
      var r := Split(t, sep);
      assert w + t == t && w + r[0] == r[0];
      assert [r[0]] + r[1..] == r;
    }
  }

  /** Joining fields free of the separator and splitting again gives them back. */
  lemma {:induction false} SplitJoin(fields: seq<string>, sep: char)
    requires |fields| >= 1
    requires forall k :: 0 <= k < |fields| ==> sep !in fields[k]
    ensures Split(Join(fields, sep), sep) == fields
    decreases |fields|
  {
    var w := fields[0];
    if |fields| == 1 {
      SplitField(w, [], sep);
      assert w + [] == w;
    } else {
      var u := Join(fields[1..], sep);
      SplitJoin(fields[1..], sep);
      assert w + [sep] + u == w + ([sep] + u);
      SplitField(w, [sep] + u, sep);
      assert ([sep] + u)[1..] == u;
      assert Split([sep] + u, sep) == [[]] + fields[1..];
      assert w + [] == w;
    }
  }

  // ---------------------------------------------------------------------------
  // One line of the file

  /** The fields of a line: stripped, then split on `|`. */
  function Fields(line: string): seq<string>
  {
    Split(Strip(line), '|')
  }

  predicate WellFormed(line: string)
  {
    |Fields(line)| == 4
  }

  /** `first_name, last_name, email, password = line.strip().split("|")`,
      then `Customer(first_name, last_name, email, password)`. */
  function ParseLine(line: string): (r: Result<Customer, ParseError>)
    ensures r.Success? <==> WellFormed(line)
    ensures r.Success? ==>
      [r.value.firstName, r.value.lastName, r.value.email, r.value.password] == Fields(line)
    ensures r.Failure? ==> r.error == WrongFieldCount(|Fields(line)|)
  {
    var f := Fields(line);
    if |f| == 4 then Success(Customer(f[0], f[1], f[2], f[3]))
    else Failure(WrongFieldCount(|f|))
  }

  /** The line of the file that stores `c`, without its line end. */
  function FormatLine(c: Customer): string
  {
    Join([c.firstName, c.lastName, c.email, c.password], '|')
  }

  /** A customer the file format can hold: no field contains `|`, and the line
      neither starts nor ends with whitespace. */
  predicate Storable(c: Customer)
  {
    && '|' !in c.firstName && '|' !in c.lastName && '|' !in c.email && '|' !in c.password
    && (c.firstName == [] || !IsSpace(c.firstName[0]))
    && (c.password == [] || !IsSpace(c.password[|c.password| - 1]))
  }

  lemma FormatLineShape(c: Customer)
    ensures FormatLine(c) == c.firstName + ['|'] + (c.lastName + ['|'] + (c.email + ['|'] + c.password))
  {
    var fields := [c.firstName, c.lastName, c.email, c.password];
    assert fields[1..] == [c.lastName, c.email, c.password];
    assert fields[1..][1..] == [c.email, c.password];
    assert fields[1..][1..][1..] == [c.password];
    assert Join([c.email, c.password], '|') == c.email + ['|'] + c.password;
    assert Join([c.lastName, c.email, c.password], '|') == c.lastName + ['|'] + (c.email + ['|'] + c.password);
  }

  lemma FormatLineTrimmed(c: Customer)
    requires Storable(c)
    ensures Trimmed(FormatLine(c))
  {
    FormatLineShape(c);
    var t := FormatLine(c);
    var tail := c.lastName + ['|'] + (c.email + ['|'] + c.password);
    assert t[0] == (if c.firstName == [] then '|' else c.firstName[0]);
    assert tail[|tail| - 1] == (if c.password == [] then '|' else c.password[|c.password| - 1]);
    assert t[|t| - 1] == tail[|tail| - 1];
  }

  lemma FormatLineStrip(c: Customer, lineEnd: string)
    requires Storable(c) && AllSpace(lineEnd)
    ensures Strip(FormatLine(c) + lineEnd) == FormatLine(c)
  {
    var t := FormatLine(c);
    FormatLineTrimmed(c);
    StripFramed([], t, lineEnd);
    assert [] + t + lineEnd == t + lineEnd;
  }

  lemma FormatLineSplit(c: Customer)
    requires Storable(c)
    ensures Split(FormatLine(c), '|') == [c.firstName, c.lastName, c.email, c.password]
  {
    SplitJoin([c.firstName, c.lastName, c.email, c.password], '|');
  }

  /** Reading back a formatted line, whatever whitespace ends it, gives the customer. */
  lemma ParseFormatted(c: Customer, lineEnd: string)
    requires Storable(c) && AllSpace(lineEnd)
    ensures ParseLine(FormatLine(c) + lineEnd) == Success(c)
  {
    FormatLineStrip(c, lineEnd);
    FormatLineSplit(c);
  }

  // ---------------------------------------------------------------------------
  // read_customers_from_file

  /** The loop of `read_customers_from_file` as a left fold over the lines:
      each parsed customer is stored under its email, replacing any earlier
      one; the first malformed line aborts the read. */
  function ReadSpec(lines: seq<string>): (r: Result<map<string, Customer>, ReadError>)
    ensures r.Failure? ==> r.error.lineIndex < |lines|
    ensures r.Success? ==> KeyedByEmail(r.value)
    decreases |lines|
  {
    if lines == [] then Success(map[])
    else
      match ReadSpec(lines[..|lines| - 1])
      case Failure(e) => Failure(e)
      case Success(m) =>
        match ParseLine(lines[|lines| - 1])
        case Failure(WrongFieldCount(n)) => Failure(MalformedLine(|lines| - 1, n))
        case Success(c) => Success(m[c.email := c])
  }

  /** `line` is well formed and its third field is `email`. */
  predicate HasEmail(line: string, email: string)
  {
    var f := Fields(line);
    |f| == 4 && f[2] == email
  }

  /** No line after line `i` has email `email`. */
  ghost predicate LastWithEmail(lines: seq<string>, i: nat, email: string)
  {
    forall j :: i < j < |lines| ==> !HasEmail(lines[j], email)
  }

  /** Every customer is stored under its own email. */
  predicate KeyedByEmail(m: map<string, Customer>)
  {
    forall e :: e in m ==> m[e].email == e
  }

  /** The keys are exactly the emails of the lines. */
  ghost predicate KeysAreEmails(lines: seq<string>, m: map<string, Customer>)
  {
    forall e :: e in m <==> exists i :: 0 <= i < |lines| && HasEmail(lines[i], e)
  }

  /** Each email holds the customer of the last line with that email. */
  ghost predicate LastLineWins(lines: seq<string>, m: map<string, Customer>)
  {
    forall i, e :: 0 <= i < |lines| && HasEmail(lines[i], e) && LastWithEmail(lines, i, e) ==>
      e in m && ParseLine(lines[i]) == Success(m[e])
  }

  /** `m` is the table read from `lines`. */
  ghost predicate Loaded(lines: seq<string>, m: map<string, Customer>)
  {
    KeyedByEmail(m) && KeysAreEmails(lines, m) && LastLineWins(lines, m)
  }

  /** The customer file, given as its lines, read into a table keyed by email. */
  method ReadCustomersFromFile(lines: seq<string>) returns (r: Result<map<string, Customer>, ReadError>)
    ensures r == ReadSpec(lines)
    ensures r.Success? <==> AllWellFormed(lines)
    ensures r.Success? ==> Loaded(lines, r.value)
  {
    var customers: map<string, Customer> := map[];
    var i := 0;
    while i < |lines|
      invariant 0 <= i <= |lines|
      invariant ReadSpec(lines[..i]) == Success(customers)
    {
      var fields := Split(Strip(lines[i]), '|');
      if |fields| != 4 {
        ReadStopsAt(lines, i, customers);
        ReadCorrect(lines);
        r := Failure(MalformedLine(i, |fields|));
        return;
      }
      var firstName, lastName, email, password := fields[0], fields[1], fields[2], fields[3];
      ReadContinues(lines, i, customers);
      customers := customers[email := Customer(firstName, lastName, email, password)];
      i := i + 1;
    }
    assert lines[..i] == lines;
    ReadCorrect(lines);
    r := Success(customers);
  }

  /** A well-formed next line: the prefix read extends by that line's customer. */
  lemma ReadContinues(lines: seq<string>, i: nat, customers: map<string, Customer>)
    requires i < |lines| && ReadSpec(lines[..i]) == Success(customers)
    requires WellFormed(lines[i])
    ensures var f := Fields(lines[i]);
            ReadSpec(lines[..i + 1]) == Success(customers[f[2] := Customer(f[0], f[1], f[2], f[3])])
  {
    TakeOneMore(lines, i);
    ReadSnoc(lines[..i], lines[i]);
  }

  lemma TakeOneMore<T>(s: seq<T>, i: nat)
    requires i < |s|
    ensures s[..i + 1] == s[..i] + [s[i]]
  {
  }

  /** A malformed next line: the whole read fails there. */
  lemma ReadStopsAt(lines: seq<string>, i: nat, customers: map<string, Customer>)
    requires i < |lines| && ReadSpec(lines[..i]) == Success(customers)
    requires !WellFormed(lines[i])
    ensures ReadSpec(lines) == Failure(MalformedLine(i, |Fields(lines[i])|))
  {
    var prefix, next := lines[..i], lines[..i + 1];
    TakeOneMore(lines, i);
    ReadSnoc(prefix, lines[i]);
    assert ReadSpec(next) == Failure(MalformedLine(i, |Fields(lines[i])|));
    ReadFailurePersists(lines, i + 1);
  }

  /** Once reading has failed on a prefix of the lines, it fails the same way on all of them. */
  lemma {:induction false} ReadFailurePersists(lines: seq<string>, k: nat)
    requires k <= |lines|
    requires ReadSpec(lines[..k]).Failure?
    ensures ReadSpec(lines) == ReadSpec(lines[..k])
    decreases |lines|
  {
    if k == |lines| {
      assert lines[..k] == lines;
    } else {
      var init := lines[..|lines| - 1];
      assert init[..k] == lines[..k];
      ReadFailurePersists(init, k);
    }
  }

  lemma ReadStepKeys(init: seq<string>, line: string, m: map<string, Customer>, c: Customer)
    requires KeysAreEmails(init, m)
    requires ParseLine(line) == Success(c)
    ensures KeysAreEmails(init + [line], m[c.email := c])
  {
    var lines := init + [line];
    var m' := m[c.email := c];
    assert forall i :: 0 <= i < |init| ==> lines[i] == init[i];
    assert HasEmail(line, c.email);
    forall e | e in m'
      ensures exists i :: 0 <= i < |lines| && HasEmail(lines[i], e)
    {
      if e == c.email {
        assert HasEmail(lines[|init|], e);
      } else {
        var i :| 0 <= i < |init| && HasEmail(init[i], e);
        assert HasEmail(lines[i], e);
      }
    }
    forall e, i | 0 <= i < |lines| && HasEmail(lines[i], e)
      ensures e in m'
    {
      if i < |init| {
        assert HasEmail(init[i], e);
      }
    }
  }

  lemma ReadStepLast(init: seq<string>, line: string, m: map<string, Customer>, c: Customer)
    requires LastLineWins(init, m)
    requires ParseLine(line) == Success(c)
    ensures LastLineWins(init + [line], m[c.email := c])
  {
    var lines := init + [line];
    var m' := m[c.email := c];
    assert HasEmail(line, c.email);
    forall i, e | 0 <= i < |lines| && HasEmail(lines[i], e) && LastWithEmail(lines, i, e)
      ensures e in m' && ParseLine(lines[i]) == Success(m'[e])
    {
      if i < |init| {
        assert lines[i] == init[i];
        assert !HasEmail(lines[|init|], e);
        assert LastWithEmail(init, i, e) by {
          forall j | i < j < |init| ensures !HasEmail(init[j], e) {
            assert lines[j] == init[j];
          }
        }
      }
    }
  }

  /** One more well-formed line keeps `Loaded`. */
  lemma ReadStep(init: seq<string>, line: string, m: map<string, Customer>, c: Customer)
    requires Loaded(init, m)
    requires ParseLine(line) == Success(c)
    ensures Loaded(init + [line], m[c.email := c])
  {
    ReadStepKeys(init, line, m, c);
    ReadStepLast(init, line, m, c);
  }

  predicate AllWellFormed(lines: seq<string>)
  {
    forall i :: 0 <= i < |lines| ==> WellFormed(lines[i])
  }

  lemma AllWellFormedSnoc(init: seq<string>, line: string)
    ensures AllWellFormed(init + [line]) <==> AllWellFormed(init) && WellFormed(line)
  {
    var lines := init + [line];
    if AllWellFormed(lines) {
      assert WellFormed(lines[|init|]);
      forall i | 0 <= i < |init| ensures WellFormed(init[i]) {
        assert lines[i] == init[i];
      }
    }
    if AllWellFormed(init) && WellFormed(line) {
      forall i | 0 <= i < |lines| ensures WellFormed(lines[i]) {
        if i < |init| { assert lines[i] == init[i]; }
      }
    }
  }

  /** Reading succeeds exactly when every line is well formed, and then gives
      the table `Loaded` describes; no lines give the empty table. */
  lemma {:induction false} ReadCorrect(lines: seq<string>)
    ensures ReadSpec(lines).Success? <==> AllWellFormed(lines)
    ensures ReadSpec(lines).Success? ==> Loaded(lines, ReadSpec(lines).value)
    decreases |lines|
  {
    if lines != [] {
      var init, line := lines[..|lines| - 1], lines[|lines| - 1];
      assert lines == init + [line];
      ReadCorrect(init);
      ReadSnoc(init, line);
      AllWellFormedSnoc(init, line);
      if ReadSpec(init).Success? && WellFormed(line) {
        ReadStep(init, line, ReadSpec(init).value, ParseLine(line).value);
      }
    }
  }

  /** A malformed line makes the whole read fail, naming the first such line. */
  lemma FirstMalformedLineFails(lines: seq<string>, k: nat)
    requires k < |lines| && !WellFormed(lines[k])
    requires forall j :: 0 <= j < k ==> WellFormed(lines[j])
    ensures ReadSpec(lines) == Failure(MalformedLine(k, |Fields(lines[k])|))
  {
    var prefix := lines[..k];
    ReadCorrect(prefix);
    assert lines[..k + 1][..k] == prefix;
    ReadFailurePersists(lines, k + 1);
  }

  /** What reading one more line does: a failure stays, a malformed line
      fails, a well-formed line stores its customer under its email. */
  lemma ReadSnoc(init: seq<string>, line: string)
    ensures ReadSpec(init).Failure? ==> ReadSpec(init + [line]) == ReadSpec(init)
    ensures ReadSpec(init).Success? && !WellFormed(line) ==>
              ReadSpec(init + [line]) == Failure(MalformedLine(|init|, |Fields(line)|))
    ensures ReadSpec(init).Success? && WellFormed(line) ==>
              var c := ParseLine(line).value;
              ReadSpec(init + [line]) == Success(ReadSpec(init).value[c.email := c])
  {
    assert (init + [line])[..|init|] == init;
  }

  /** A well-formed line read after a successful prefix stores its customer. */
  lemma ReadSnocParsed(init: seq<string>, line: string, m: map<string, Customer>, c: Customer)
    requires ReadSpec(init) == Success(m) && ParseLine(line) == Success(c)
    ensures ReadSpec(init + [line]) == Success(m[c.email := c])
  {
    assert (init + [line])[..|init|] == init;
  }

  /** Two lines with the same email: the later one's customer is kept. */
  lemma LaterLineWins(first: string, second: string)
    requires WellFormed(first) && WellFormed(second)
    requires Fields(first)[2] == Fields(second)[2]
    ensures ReadSpec([first, second]) == Success(map[Fields(second)[2] := ParseLine(second).value])
  {
    var c1, c2 := ParseLine(first).value, ParseLine(second).value;
    assert [] + [first] == [first] && [first] + [second] == [first, second];
    ReadSnocParsed([], first, map[], c1);
    ReadSnocParsed([first], second, map[c1.email := c1], c2);
    assert map[c1.email := c1][c2.email := c2] == map[c2.email := c2];
  }

  // ---------------------------------------------------------------------------
  // get_by_email

  /** `customers[email]`: the stored customer, or a failure for an unknown email. */
  function GetByEmail(customers: map<string, Customer>, email: string): (r: Result<Customer, LookupError>)
    ensures r.Success? <==> email in customers
    ensures r.Success? ==> r.value == customers[email]
    ensures r.Failure? ==> r.error == NoSuchEmail(email)
  {
    if email in customers then Success(customers[email]) else Failure(NoSuchEmail(email))
  }

  /** On a table read from a file, the lookup finds exactly the emails of its
      lines, returns a customer with that email, namely the last line's. */
  lemma GetByEmailAfterRead(lines: seq<string>, customers: map<string, Customer>, email: string)
    requires ReadSpec(lines) == Success(customers)
    ensures GetByEmail(customers, email).Success? <==> exists i :: 0 <= i < |lines| && HasEmail(lines[i], email)
    ensures GetByEmail(customers, email).Success? ==> GetByEmail(customers, email).value.email == email
    ensures forall i :: 0 <= i < |lines| && HasEmail(lines[i], email) && LastWithEmail(lines, i, email) ==>
              ParseLine(lines[i]) == Success(GetByEmail(customers, email).value)
  {
    ReadCorrect(lines);
  }
}
