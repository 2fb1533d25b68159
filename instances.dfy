/** The instance descriptor of an SVR_RESP payload: `key;value;key;value;...`,
    walked two tokens at a time, into an SqlInstance record. */
module Instances {
  import opened Wrappers
  import opened Errors
  import opened Text
  import opened Numbers

  // ---------------------------------------------------------------------------
  // System.Version
  // ---------------------------------------------------------------------------

  /** A version with two to four components; an absent build or revision is -1. */
  datatype Version = Version(major: int, minor: int, build: int, revision: int)

  const VersionLengthMessage := "Version string portion was too short or too long."

  /** Version.Parse: two to four dot-separated components, each an Int32. */
  function ParseVersion(s: string): (r: Result<Version, Error>)
    ensures r.Success? ==> 2 <= |Split(s, ".")| <= 4
    ensures r.Success? ==> 0 <= r.value.major && 0 <= r.value.minor && -1 <= r.value.build && -1 <= r.value.revision
    ensures r.Success? ==> (r.value.build == -1 <==> |Split(s, ".")| == 2) && (r.value.revision == -1 <==> |Split(s, ".")| < 4)
    ensures !(2 <= |Split(s, ".")| <= 4) ==> r == Failure(ArgumentException(VersionLengthMessage))
    ensures r.Failure? ==> r.error in {ArgumentException(VersionLengthMessage), FormatException, OverflowException}
  {
    var parts := Split(s, ".");
    if |parts| < 2 || |parts| > 4 then Failure(ArgumentException(VersionLengthMessage))
    else
      var major :- ParseInt32(parts[0]);
      var minor :- ParseInt32(parts[1]);
      if |parts| == 2 then Success(Version(major, minor, -1, -1))
      else
        var build :- ParseInt32(parts[2]);
        if |parts| == 3 then Success(Version(major, minor, build, -1))
        else
          var revision :- ParseInt32(parts[3]);
          Success(Version(major, minor, build, revision))
  }

  predicate IsFourPart(v: Version) {
    0 <= v.major <= Int32MaxValue && 0 <= v.minor <= Int32MaxValue
    && 0 <= v.build <= Int32MaxValue && 0 <= v.revision <= Int32MaxValue
  }

  /** Version.ToString() of a four-part version. */
  function VersionString(v: Version): string
    requires IsFourPart(v)
  {
    Join([DecimalString(v.major), DecimalString(v.minor), DecimalString(v.build), DecimalString(v.revision)], ".")
  }

  lemma DigitsAvoidDot(n: nat)
    ensures Clean(DecimalString(n), ".")
  {
    var s := DecimalString(n);
    assert forall k :: 0 <= k < |s| ==> IsDigit(s[k]);
    CleanSingle(s, '.');
  }

  /** Parsing the text of any four-part version gives that version back. */
  lemma ParseVersionString(v: Version)
    requires IsFourPart(v)
    ensures ParseVersion(VersionString(v)) == Success(v)
  {
    var parts := [DecimalString(v.major), DecimalString(v.minor), DecimalString(v.build), DecimalString(v.revision)];
    DigitsAvoidDot(v.major);
    DigitsAvoidDot(v.minor);
    DigitsAvoidDot(v.build);
    DigitsAvoidDot(v.revision);
    SplitJoin(parts, ".");
    ParseDecimalString(v.major);
    ParseDecimalString(v.minor);
    ParseDecimalString(v.build);
    ParseDecimalString(v.revision);
  }

  // ---------------------------------------------------------------------------
  // The version-to-name table
  // ---------------------------------------------------------------------------

  /** The static SqlServerVersions dictionary, in initialiser order. */
  const SqlServerVersions: seq<(Version, string)> := [
    (Version(12, 0, 2000, 80), "SQL Server 2014 RTM"),
    (Version(11, 0, 5058, 0), "SQL Server 2012 Service Pack 2"),
    (Version(11, 0, 3000, 0), "SQL Server 2012 Service Pack 1"),
    (Version(11, 0, 2100, 60), "SQL Server 2012 RTM"),
    (Version(10, 50, 6000, 34), "SQL Server 2008 R2 Service Pack 3"),
    (Version(10, 50, 4000, 0), "SQL Server 2008 R2 Service Pack 2"),
    (Version(10, 50, 2500, 0), "SQL Server 2008 R2 Service Pack 1"),
    (Version(10, 50, 1600, 1), "SQL Server 2008 R2 RTM"),
    (Version(10, 0, 5500, 34), "SQL Server 2008 Service Pack 3"),
    (Version(10, 0, 4000, 0), "SQL Server 2008 Service Pack 2"),
    (Version(10, 0, 2531, 0), "SQL Server 2008 Service Pack 1"),
    (Version(10, 0, 1600, 22), "SQL Server 2008 RTM"),
    (Version(9, 0, 5000, 0), "SQL Server 2005 Service Pack 4"),
    (Version(9, 0, 4035, 0), "SQL Server 2005 Service Pack 3"),
    (Version(9, 0, 3042, 0), "SQL Server 2005 Service Pack 2"),
    (Version(9, 0, 2047, 0), "SQL Server 2005 Service Pack 1"),
    (Version(9, 0, 1399, 0), "SQL Server 2005 RTM"),
    (Version(8, 0, 2039, 0), "SQL Server 2000 Service Pack 4"),
    (Version(8, 0, 760, 0), "SQL Server 2000 Service Pack 3"),
    (Version(8, 0, 534, 0), "SQL Server 2000 Service Pack 2"),
    (Version(8, 0, 384, 0), "SQL Server 2000 Service Pack 1"),
    (Version(8, 0, 194, 0), "SQL Server 2000 RTM")
  ]

  const UnknownVersionName := "Unknown"

  /** No two entries share a key, so building the dictionary does not throw. */
  lemma SqlServerVersionsKeysDistinct()
    ensures forall j, k :: 0 <= j < k < |SqlServerVersions| ==> SqlServerVersions[j].0 != SqlServerVersions[k].0
  {
  }

  /** Dictionary lookup from entry `from` on: the name of the entry whose key is
      exactly `v`, or "Unknown". */
  function LookupFrom(v: Version, from: nat): (name: string)
    requires from <= |SqlServerVersions|
    ensures (exists k :: from <= k < |SqlServerVersions| && SqlServerVersions[k] == (v, name))
         || (name == UnknownVersionName && forall k :: from <= k < |SqlServerVersions| ==> SqlServerVersions[k].0 != v)
    decreases |SqlServerVersions| - from
  {
    if from == |SqlServerVersions| then UnknownVersionName
    else if SqlServerVersions[from].0 == v then SqlServerVersions[from].1
    else LookupFrom(v, from + 1)
  }

  /** The friendly name for a version: the table entry for an exact four-part
      match, and "Unknown" for every other version, a shorter one included. */
  lemma FriendlyNameExact(v: Version)
    ensures (exists k :: 0 <= k < |SqlServerVersions| && SqlServerVersions[k] == (v, LookupFrom(v, 0)))
         <==> (exists k :: 0 <= k < |SqlServerVersions| && SqlServerVersions[k].0 == v)
    ensures LookupFrom(v, 0) == UnknownVersionName <==> forall k :: 0 <= k < |SqlServerVersions| ==> SqlServerVersions[k].0 != v
  {
    assert forall k :: 0 <= k < |SqlServerVersions| ==> SqlServerVersions[k].1 != UnknownVersionName;
  }

  lemma FriendlyNameExamples()
    ensures LookupFrom(Version(12, 0, 2000, 80), 0) == "SQL Server 2014 RTM"
  {
  }

  /** Every key of the table is a four-part version no later than 12. */
  lemma SqlServerVersionsBounds()
    ensures forall k :: 0 <= k < |SqlServerVersions| ==>
              0 <= SqlServerVersions[k].0.revision && SqlServerVersions[k].0.major <= 12
  {
  }

  /** A three-part version never matches a four-part key. */
  lemma ThreePartVersionUnknown()
    ensures LookupFrom(Version(12, 0, 2000, -1), 0) == UnknownVersionName
  {
    SqlServerVersionsBounds();
    FriendlyNameExact(Version(12, 0, 2000, -1));
  }

  /** A version missing from the table is "Unknown". */
  lemma UnlistedVersionUnknown()
    ensures LookupFrom(Version(13, 0, 1601, 5), 0) == UnknownVersionName
  {
    SqlServerVersionsBounds();
    FriendlyNameExact(Version(13, 0, 1601, 5));
  }

  // ---------------------------------------------------------------------------
  // The instance record
  // ---------------------------------------------------------------------------

  /** SqlInstance; a field whose key never appeared is None (null in the source). */
  datatype SqlInstance = SqlInstance(
    serverName: Option<string>,
    instanceName: Option<string>,
    isClustered: bool,
    version: Option<Version>,
    namedPipe: Option<string>,
    tcpPort: Option<int>,
    rpcName: Option<string>,
    spxName: Option<string>,
    adspName: Option<string>)

  const Unset := SqlInstance(None, None, false, None, None, None, None, None, None)

  /** The SqlServerVersion property: ContainsKey(null) throws ArgumentNullException. */
  function SqlServerVersion(instance: SqlInstance): (r: Result<string, Error>)
    ensures instance.version.None? <==> r.Failure?
    ensures r.Success? ==>
              (exists k :: 0 <= k < |SqlServerVersions| && SqlServerVersions[k] == (instance.version.value, r.value))
              || (r.value == UnknownVersionName && forall k :: 0 <= k < |SqlServerVersions| ==> SqlServerVersions[k].0 != instance.version.value)
  {
    match instance.version
    case None => Failure(ArgumentNullException("key"))
    case Some(v) => Success(LookupFrom(v, 0))
  }

  // ---------------------------------------------------------------------------
  // The token walk, stated over the positions the cursor visits
  // ---------------------------------------------------------------------------

  /** The keys whose case reads the token after the key. */
  predicate ReadsValue(key: string) {
    key == "ServerName" || key == "InstanceName" || key == "IsClustered" || key == "Version"
    || key == "np" || key == "tcp" || key == "rpc" || key == "spx" || key == "adsp"
  }

  /** Where the cursor goes after the key at `i`: past the value, or past the
      five Banyan VINES tokens as well after `bv`. */
  function Next(tokens: seq<string>, i: nat): nat
    requires i < |tokens|
  {
    if tokens[i] == "bv" then i + 6 else i + 2
  }

  /** The cursor positions from `i` on, in order. */
  function VisitedFrom(tokens: seq<string>, i: nat): (positions: seq<nat>)
    ensures forall k :: 0 <= k < |positions| ==> i <= positions[k] < |tokens|
    decreases |tokens| - i
  {
    if i >= |tokens| then [] else [i] + VisitedFrom(tokens, Next(tokens, i))
  }

  /** The positions the walk reads a key at. */
  function KeyPositions(tokens: seq<string>): seq<nat> {
    VisitedFrom(tokens, 0)
  }

  /** A `key` at `p` that has its value token after it. */
  predicate HasValue(tokens: seq<string>, p: nat, key: string) {
    p + 1 < |tokens| && tokens[p] == key
  }

  /** What the case at `p` throws: IndexOutOfRange for a value-reading key with
      no token after it, or the parse error of a Version or tcp value. */
  function StepFailure(tokens: seq<string>, p: nat): Option<Error> {
    if p >= |tokens| || !ReadsValue(tokens[p]) then None
    else if p + 1 >= |tokens| then Some(IndexOutOfRangeException)
    else if tokens[p] == "Version" && ParseVersion(tokens[p + 1]).Failure? then Some(ParseVersion(tokens[p + 1]).error)
    else if tokens[p] == "tcp" && ParseInt32(tokens[p + 1]).Failure? then Some(ParseInt32(tokens[p + 1]).error)
    else None
  }

  /** The failure of the earliest position that fails. */
  function FirstFailure(tokens: seq<string>, positions: seq<nat>): Option<Error>
    decreases |positions|
  {
    if |positions| == 0 then None
    else
      var earlier := FirstFailure(tokens, positions[..|positions| - 1]);
      if earlier.Some? then earlier else StepFailure(tokens, positions[|positions| - 1])
  }

  /** The value after the last of `positions` holding `key`. */
  function LastValue(tokens: seq<string>, positions: seq<nat>, key: string): Option<string>
    decreases |positions|
  {
    if |positions| == 0 then None
    else
      var p := positions[|positions| - 1];
      if HasValue(tokens, p, key) then Some(tokens[p + 1]) else LastValue(tokens, positions[..|positions| - 1], key)
  }

  function ParsedVersion(text: Option<string>): Option<Version> {
    match text
    case None => None
    case Some(s) => match ParseVersion(s) { case Success(v) => Some(v) case Failure(_) => None }
  }

  function ParsedPort(text: Option<string>): Option<int> {
    match text
    case None => None
    case Some(s) => match ParseInt32(s) { case Success(n) => Some(n) case Failure(_) => None }
  }

  /** The record made of the last value of each key among `positions`. */
  function Assemble(tokens: seq<string>, positions: seq<nat>): SqlInstance {
    SqlInstance(
      serverName := LastValue(tokens, positions, "ServerName"),
      instanceName := LastValue(tokens, positions, "InstanceName"),
      isClustered := LastValue(tokens, positions, "IsClustered") == Some("Yes"),
      version := ParsedVersion(LastValue(tokens, positions, "Version")),
      namedPipe := LastValue(tokens, positions, "np"),
      tcpPort := ParsedPort(LastValue(tokens, positions, "tcp")),
      rpcName := LastValue(tokens, positions, "rpc"),
      spxName := LastValue(tokens, positions, "spx"),
      adspName := LastValue(tokens, positions, "adsp"))
  }

  /** A tokenised descriptor: the first failing key position decides the
      exception; otherwise every field holds the value of its key's last occurrence. */
  function DescribeTokens(tokens: seq<string>): (r: Result<SqlInstance, Error>)
    ensures r.Failure? ==> IsDescriptorError(r.error)
  {
    var positions := KeyPositions(tokens);
    FirstFailureKinds(tokens, positions);
    match FirstFailure(tokens, positions)
    case Some(e) => Failure(e)
    case None => Success(Assemble(tokens, positions))
  }

  /** One `;;`-free descriptor segment, cut on single semicolons first. */
  function Describe(segment: string): (r: Result<SqlInstance, Error>)
    ensures r.Failure? ==> IsDescriptorError(r.error)
  {
    DescribeTokens(Split(segment, ";"))
  }

  /** The exceptions a descriptor can raise. */
  predicate IsDescriptorError(e: Error) {
    e == IndexOutOfRangeException || e == FormatException || e == OverflowException
    || e == ArgumentException(VersionLengthMessage)
  }

  /** A descriptor fails only with IndexOutOfRange or a parse exception of Version or tcp. */
  lemma {:induction false} FirstFailureKinds(tokens: seq<string>, ps: seq<nat>)
    ensures FirstFailure(tokens, ps).Some? ==> IsDescriptorError(FirstFailure(tokens, ps).value)
    decreases |ps|
  {
    if |ps| > 0 {
      FirstFailureKinds(tokens, ps[..|ps| - 1]);
    }
  }

  // ---------------------------------------------------------------------------
  // Properties of the walk
  // ---------------------------------------------------------------------------

  lemma {:induction false} VisitedFromShape(tokens: seq<string>, i: nat)
    requires i % 2 == 0
    ensures var ps := VisitedFrom(tokens, i);
            (|ps| > 0 <==> i < |tokens|) && (|ps| > 0 ==> ps[0] == i)
            && (forall k :: 0 <= k < |ps| ==> ps[k] % 2 == 0)
            && (forall k :: 0 < k < |ps| ==> ps[k] == Next(tokens, ps[k - 1]))
            && (forall a, b :: 0 <= a < b < |ps| ==> ps[a] < ps[b])
            && (|ps| > 0 ==> Next(tokens, ps[|ps| - 1]) >= |tokens|)
    decreases |tokens| - i
  {
    if i < |tokens| {
      VisitedFromShape(tokens, Next(tokens, i));
    }
  }

  /** The walk starts at the first token, visits only even positions in
      increasing order, moves 6 past a `bv` and 2 past any other key, and stops
      once the cursor is at or past the end. */
  lemma KeyPositionsShape(tokens: seq<string>)
    ensures var ps := KeyPositions(tokens);
            (|ps| > 0 <==> |tokens| > 0) && (|ps| > 0 ==> ps[0] == 0)
            && (forall k :: 0 <= k < |ps| ==> ps[k] % 2 == 0 && ps[k] < |tokens|)
            && (forall k :: 0 < k < |ps| ==> ps[k] == ps[k - 1] + (if tokens[ps[k - 1]] == "bv" then 6 else 2))
            && (forall a, b :: 0 <= a < b < |ps| ==> ps[a] < ps[b])
            && (|ps| > 0 ==> Next(tokens, ps[|ps| - 1]) >= |tokens|)
  {
    VisitedFromShape(tokens, 0);
  }

  lemma {:induction false} VisitedFromNoBv(tokens: seq<string>, i: nat)
    requires i % 2 == 0 && i <= |tokens| + 1
    requires forall k :: 0 <= k < |tokens| && k % 2 == 0 ==> tokens[k] != "bv"
    ensures |VisitedFrom(tokens, i)| == (|tokens| + 1 - i) / 2
    ensures forall k :: 0 <= k < |VisitedFrom(tokens, i)| ==> VisitedFrom(tokens, i)[k] == i + 2 * k
    decreases |tokens| - i
  {
    if i < |tokens| {
      VisitedFromNoBv(tokens, i + 2);
    }
  }

  /** Without a `bv` key the walk reads a key at every even position. */
  lemma NoBvEveryOtherToken(tokens: seq<string>)
    requires forall k :: 0 <= k < |tokens| && k % 2 == 0 ==> tokens[k] != "bv"
    ensures |KeyPositions(tokens)| == (|tokens| + 1) / 2
    ensures forall k :: 0 <= k < |KeyPositions(tokens)| ==> KeyPositions(tokens)[k] == 2 * k
  {
    VisitedFromNoBv(tokens, 0);
  }

  /** A field holds the value after the last position carrying its key, and is
      None exactly when no position carries the key with a value after it. */
  lemma {:induction false} LastValueIsLastOccurrence(tokens: seq<string>, ps: seq<nat>, key: string)
    ensures LastValue(tokens, ps, key).Some? <==> exists k :: 0 <= k < |ps| && HasValue(tokens, ps[k], key)
    ensures LastValue(tokens, ps, key).Some? ==>
              exists k :: 0 <= k < |ps| && HasValue(tokens, ps[k], key)
                          && LastValue(tokens, ps, key).value == tokens[ps[k] + 1]
                          && forall m :: k < m < |ps| ==> !HasValue(tokens, ps[m], key)
    decreases |ps|
  {
    if |ps| > 0 {
      var init := ps[..|ps| - 1];
      LastValueIsLastOccurrence(tokens, init, key);
      var p := ps[|ps| - 1];
      if HasValue(tokens, p, key) {
        assert HasValue(tokens, ps[|ps| - 1], key);
      } else {
        assert forall k :: 0 <= k < |init| ==> init[k] == ps[k];
        if LastValue(tokens, init, key).Some? {
          var k :| 0 <= k < |init| && HasValue(tokens, init[k], key)
                   && LastValue(tokens, init, key).value == tokens[init[k] + 1]
                   && forall m :: k < m < |init| ==> !HasValue(tokens, init[m], key);
          assert forall m :: k < m < |ps| ==> !HasValue(tokens, ps[m], key);
        }
      }
    }
  }

  /** IsClustered is true exactly when the last IsClustered key carries "Yes". */
  lemma ClusteredOnlyWhenYes(tokens: seq<string>)
    requires DescribeTokens(tokens).Success?
    ensures var ps := KeyPositions(tokens);
            DescribeTokens(tokens).value.isClustered
            <==> exists k :: 0 <= k < |ps| && HasValue(tokens, ps[k], "IsClustered") && tokens[ps[k] + 1] == "Yes"
                             && forall m :: k < m < |ps| ==> !HasValue(tokens, ps[m], "IsClustered")
  {
    var ps := KeyPositions(tokens);
    LastValueIs(tokens, ps, "IsClustered", "Yes");
    assert DescribeTokens(tokens).value == Assemble(tokens, ps);
  }

  /** A key's last value is `v` exactly when its last occurrence with a value carries `v`. */
  lemma LastValueIs(tokens: seq<string>, ps: seq<nat>, key: string, v: string)
    ensures LastValue(tokens, ps, key) == Some(v)
            <==> exists k :: 0 <= k < |ps| && HasValue(tokens, ps[k], key) && tokens[ps[k] + 1] == v
                             && forall m :: k < m < |ps| ==> !HasValue(tokens, ps[m], key)
  {
    LastValueIsLastOccurrence(tokens, ps, key);
    if exists k :: 0 <= k < |ps| && HasValue(tokens, ps[k], key) && tokens[ps[k] + 1] == v
                   && forall m :: k < m < |ps| ==> !HasValue(tokens, ps[m], key) {
      var k :| 0 <= k < |ps| && HasValue(tokens, ps[k], key) && tokens[ps[k] + 1] == v
               && forall m :: k < m < |ps| ==> !HasValue(tokens, ps[m], key);
      var j :| 0 <= j < |ps| && HasValue(tokens, ps[j], key)
               && LastValue(tokens, ps, key).value == tokens[ps[j] + 1]
               && forall m :: j < m < |ps| ==> !HasValue(tokens, ps[m], key);
      assert j == k;
    }
  }

  /** Token `j` is neither read as a key nor read as the value of a key that
      stores one. */
  predicate Unread(tokens: seq<string>, ps: seq<nat>, j: nat) {
    forall k :: 0 <= k < |ps| ==> ps[k] != j && !(ps[k] + 1 == j && ps[k] < |tokens| && ReadsValue(tokens[ps[k]]))
  }

  lemma {:induction false} VisitedFromUnchanged(tokens: seq<string>, i: nat, j: nat, x: string)
    requires j < |tokens| && forall k :: 0 <= k < |VisitedFrom(tokens, i)| ==> VisitedFrom(tokens, i)[k] != j
    ensures VisitedFrom(tokens[j := x], i) == VisitedFrom(tokens, i)
    decreases |tokens| - i
  {
    if i < |tokens| {
      assert VisitedFrom(tokens, i)[0] == i;
      forall k | 0 <= k < |VisitedFrom(tokens, Next(tokens, i))|
        ensures VisitedFrom(tokens, Next(tokens, i))[k] != j
      {
        assert VisitedFrom(tokens, Next(tokens, i))[k] == VisitedFrom(tokens, i)[k + 1];
      }
      VisitedFromUnchanged(tokens, Next(tokens, i), j, x);
    }
  }

  lemma {:induction false} WalkUnchanged(tokens: seq<string>, ps: seq<nat>, j: nat, x: string)
    requires j < |tokens| && Unread(tokens, ps, j)
    ensures FirstFailure(tokens[j := x], ps) == FirstFailure(tokens, ps)
    ensures forall key :: ReadsValue(key) ==> LastValue(tokens[j := x], ps, key) == LastValue(tokens, ps, key)
    decreases |ps|
  {
    if |ps| > 0 {
      var init := ps[..|ps| - 1];
      assert forall k :: 0 <= k < |init| ==> init[k] == ps[k];
      WalkUnchanged(tokens, init, j, x);
      var p := ps[|ps| - 1];
      assert p != j && !(p + 1 == j && p < |tokens| && ReadsValue(tokens[p]));
      assert StepFailure(tokens[j := x], p) == StepFailure(tokens, p);
    }
  }

  /** Changing a token the walk never reads leaves the outcome as it was. */
  lemma UnreadTokenIrrelevant(tokens: seq<string>, j: nat, x: string)
    requires j < |tokens| && Unread(tokens, KeyPositions(tokens), j)
    ensures DescribeTokens(tokens[j := x]) == DescribeTokens(tokens)
  {
    var ps := KeyPositions(tokens);
    var changed := tokens[j := x];
    VisitedFromUnchanged(tokens, 0, j, x);
    assert KeyPositions(changed) == ps;
    WalkUnchanged(tokens, ps, j, x);
    assert FirstFailure(changed, ps) == FirstFailure(tokens, ps);
    if FirstFailure(tokens, ps).None? {
      AssembleSameValues(changed, tokens, ps);
    }
  }

  /** The record depends on the tokens only through the last value of each key it reads. */
  lemma AssembleSameValues(a: seq<string>, b: seq<string>, ps: seq<nat>)
    requires forall key :: ReadsValue(key) ==> LastValue(a, ps, key) == LastValue(b, ps, key)
    ensures Assemble(a, ps) == Assemble(b, ps)
  {
    assert ReadsValue("ServerName") && ReadsValue("InstanceName") && ReadsValue("IsClustered")
        && ReadsValue("Version") && ReadsValue("np") && ReadsValue("tcp")
        && ReadsValue("rpc") && ReadsValue("spx") && ReadsValue("adsp");
  }

  /** The value after a key with no case of its own (`via` among them) is skipped unread. */
  lemma IgnoredKeyValueUnread(tokens: seq<string>, k: nat, x: string)
    requires k < |KeyPositions(tokens)|
    requires !ReadsValue(tokens[KeyPositions(tokens)[k]]) && KeyPositions(tokens)[k] + 1 < |tokens|
    ensures DescribeTokens(tokens[KeyPositions(tokens)[k] + 1 := x]) == DescribeTokens(tokens)
  {
    var ps := KeyPositions(tokens);
    KeyPositionsShape(tokens);
    var j := ps[k] + 1;
    forall m | 0 <= m < |ps|
      ensures ps[m] != j && !(ps[m] + 1 == j && ps[m] < |tokens| && ReadsValue(tokens[ps[m]]))
    {
      assert ps[m] % 2 == 0 && ps[k] % 2 == 0;
    }
    UnreadTokenIrrelevant(tokens, j, x);
  }

  /** The five tokens after a `bv` key are skipped unread. */
  lemma BvRecordUnread(tokens: seq<string>, k: nat, d: nat, x: string)
    requires k < |KeyPositions(tokens)| && tokens[KeyPositions(tokens)[k]] == "bv"
    requires 1 <= d <= 5 && KeyPositions(tokens)[k] + d < |tokens|
    ensures DescribeTokens(tokens[KeyPositions(tokens)[k] + d := x]) == DescribeTokens(tokens)
  {
    var ps := KeyPositions(tokens);
    KeyPositionsShape(tokens);
    var j := ps[k] + d;
    forall m | 0 <= m < |ps|
      ensures ps[m] != j && !(ps[m] + 1 == j && ps[m] < |tokens| && ReadsValue(tokens[ps[m]]))
    {
      if m < k {
        assert ps[m] < ps[k];
      } else if m > k {
        assert ps[k + 1] == ps[k] + 6;
        assert ps[k + 1] <= ps[m];
      }
    }
    UnreadTokenIrrelevant(tokens, j, x);
  }

  /** A walk that ends on a value-reading key with no token after it throws
      IndexOutOfRange, unless an earlier key already threw. */
  lemma TruncatedValueFails(tokens: seq<string>)
    requires |KeyPositions(tokens)| > 0
    requires var ps := KeyPositions(tokens); ps[|ps| - 1] == |tokens| - 1 && ReadsValue(tokens[|tokens| - 1])
    ensures DescribeTokens(tokens).Failure?
    ensures var ps := KeyPositions(tokens);
            FirstFailure(tokens, ps[..|ps| - 1]).None? ==> DescribeTokens(tokens).error == IndexOutOfRangeException
  {
  }

  /** A `bv` with fewer than five tokens after it is the last key the walk reads,
      and it raises nothing: the record ends there without an exception. */
  lemma ShortBvRecordEndsWalk(tokens: seq<string>, k: nat)
    requires k < |KeyPositions(tokens)| && tokens[KeyPositions(tokens)[k]] == "bv"
    requires KeyPositions(tokens)[k] + 6 > |tokens|
    ensures k == |KeyPositions(tokens)| - 1
    ensures StepFailure(tokens, KeyPositions(tokens)[k]) == None
  {
    NextWithinWalk(tokens);
    assert !ReadsValue("bv");
  }

  /** Every key but the last is followed by another inside the token list. */
  lemma NextWithinWalk(tokens: seq<string>)
    ensures var ps := KeyPositions(tokens);
            forall m :: 0 <= m < |ps| - 1 ==> Next(tokens, ps[m]) < |tokens|
  {
    var ps := KeyPositions(tokens);
    KeyPositionsShape(tokens);
    forall m | 0 <= m < |ps| - 1
      ensures Next(tokens, ps[m]) < |tokens|
    {
      assert ps[m + 1] == Next(tokens, ps[m]);
    }
  }

  /** "bv;x" describes an instance with every field unset. */
  lemma ShortBvRecordAccepted(tokens: seq<string>)
    requires tokens == ["bv", "x"]
    ensures DescribeTokens(tokens) == Success(Unset)
  {
    assert VisitedFrom(tokens, 6) == [];
    assert KeyPositions(tokens) == [0];
    assert !ReadsValue("bv");
    assert FirstFailure(tokens, [0]) == None by { assert [0][..0] == []; }
    forall key | key != "bv"
      ensures LastValue(tokens, [0], key) == None
    {
      assert [0][..0] == [];
    }
  }

  lemma SplitVersionText(parts: seq<string>)
    requires 2 <= |parts| <= 4
    requires forall k, m :: 0 <= k < |parts| && 0 <= m < |parts[k]| ==> parts[k][m] != '.'
    ensures Split(Join(parts, "."), ".") == parts
  {
    forall k | 0 <= k < |parts| ensures Clean(parts[k], ".") {
      CleanSingle(parts[k], '.');
    }
    SplitJoin(parts, ".");
  }

  lemma ParseInt32Examples()
    ensures ParseInt32("12") == Success(12) && ParseInt32("0") == Success(0)
    ensures ParseInt32("2000") == Success(2000) && ParseInt32("80") == Success(80)
    ensures ParseInt32("1433") == Success(1433) && ParseInt32("x") == Failure(FormatException)
  {
    assert DigitsValue("12") == 12 by { assert "12"[..1] == "1"; }
    assert DigitsValue("80") == 80 by { assert "80"[..1] == "8"; }
    assert DigitsValue("2000") == 2000 by {
      assert "2000"[..3] == "200" && "200"[..2] == "20" && "20"[..1] == "2";
    }
    assert DigitsValue("1433") == 1433 by {
      assert "1433"[..3] == "143" && "143"[..2] == "14" && "14"[..1] == "1";
    }
  }

  lemma ParseVersionExamples()
    ensures ParseVersion("12.0.2000.80") == Success(Version(12, 0, 2000, 80))
    ensures ParseVersion("12.0") == Success(Version(12, 0, -1, -1))
    ensures ParseVersion("12.x") == Failure(FormatException)
  {
    ParseInt32Examples();
    assert "12.0.2000.80" == Join(["12", "0", "2000", "80"], ".");
    SplitVersionText(["12", "0", "2000", "80"]);
    assert "12.0" == Join(["12", "0"], ".");
    SplitVersionText(["12", "0"]);
    assert "12.x" == Join(["12", "x"], ".");
    SplitVersionText(["12", "x"]);
  }

  /** A version string without a dot is too short. */
  lemma OnePartVersionRejected(s: string)
    requires forall m :: 0 <= m < |s| ==> s[m] != '.'
    ensures ParseVersion(s) == Failure(ArgumentException(VersionLengthMessage))
  {
    CleanSingle(s, '.');
    SplitClean(s, ".");
  }

  const ExampleTokens := ["ServerName", "HOST1", "InstanceName", "SQLEXPRESS", "IsClustered", "No",
                           "Version", "12.0.2000.80", "tcp", "1433"]

  const ExampleInstance := SqlInstance(Some("HOST1"), Some("SQLEXPRESS"), false, Some(Version(12, 0, 2000, 80)),
                                       None, Some(1433), None, None, None)

  lemma ExampleKeyPositions()
    ensures KeyPositions(ExampleTokens) == [0, 2, 4, 6, 8]
  {
    NoBvEveryOtherToken(ExampleTokens);
  }

  lemma ExampleValuesParse(t: seq<string>)
    requires t == ExampleTokens
    ensures ParseVersion(t[7]) == Success(Version(12, 0, 2000, 80)) && ParseInt32(t[9]) == Success(1433)
  {
    ParseVersionExamples();
    ParseInt32Examples();
  }

  lemma ExampleNoFailure(t: seq<string>)
    requires t == ExampleTokens
    ensures FirstFailure(t, [0, 2, 4, 6, 8]) == None
  {
    ExampleValuesParse(t);
    FirstFailureExtend(t, [], 0);
    assert [] + [0] == [0];
    FirstFailureExtend(t, [0], 2);
    assert [0] + [2] == [0, 2];
    FirstFailureExtend(t, [0, 2], 4);
    assert [0, 2] + [4] == [0, 2, 4];
    FirstFailureExtend(t, [0, 2, 4], 6);
    assert [0, 2, 4] + [6] == [0, 2, 4, 6];
    FirstFailureExtend(t, [0, 2, 4, 6], 8);
    assert [0, 2, 4, 6] + [8] == [0, 2, 4, 6, 8];
  }

  lemma ExampleNamesAssembled(t: seq<string>)
    requires t == ExampleTokens
    ensures Assemble(t, [0, 2, 4]) == Unset.(serverName := Some("HOST1"), instanceName := Some("SQLEXPRESS"))
  {
    assert Assemble(t, []) == Unset;
    AssembleExtend(t, [], 0);
    assert [] + [0] == [0];
    AssembleExtend(t, [0], 2);
    assert [0] + [2] == [0, 2];
    AssembleExtend(t, [0, 2], 4);
    assert [0, 2] + [4] == [0, 2, 4];
  }

  lemma ExampleAssembled(t: seq<string>)
    requires t == ExampleTokens
    ensures Assemble(t, [0, 2, 4, 6, 8]) == ExampleInstance
  {
    ExampleValuesParse(t);
    ExampleNamesAssembled(t);
    AssembleExtend(t, [0, 2, 4], 6);
    assert [0, 2, 4] + [6] == [0, 2, 4, 6];
    AssembleExtend(t, [0, 2, 4, 6], 8);
    assert [0, 2, 4, 6] + [8] == [0, 2, 4, 6, 8];
  }

  lemma ExampleTokensDescribed()
    ensures DescribeTokens(ExampleTokens) == Success(ExampleInstance)
  {
    ExampleKeyPositions();
    ExampleNoFailure(ExampleTokens);
    ExampleAssembled(ExampleTokens);
  }

  /** ServerName;HOST1;InstanceName;SQLEXPRESS;IsClustered;No;Version;12.0.2000.80;tcp;1433 */
  const ExampleText := Join(ExampleTokens, ";")

  lemma ExampleTokensCharacters(tokens: seq<string>)
    requires tokens == ExampleTokens
    ensures forall k, m :: 0 <= k < |tokens| && 0 <= m < |tokens[k]| ==> tokens[k][m] != ';'
  {
    assert tokens == ExampleTokens[..5] + ExampleTokens[5..];
    forall k, m | 0 <= k < |tokens| && 0 <= m < |tokens[k]|
      ensures tokens[k][m] != ';'
    {
      if k < 5 {
        assert tokens[k] == ExampleTokens[..5][k];
      } else {
        assert tokens[k] == ExampleTokens[5..][k - 5];
      }
    }
  }

  lemma ExampleTextSplit(text: string, tokens: seq<string>)
    requires text == ExampleText && tokens == ExampleTokens
    ensures Split(text, ";") == tokens
  {
    forall k | 0 <= k < |tokens| ensures Clean(tokens[k], ";") {
      assert forall m :: 0 <= m < |tokens[k]| ==> tokens[k][m] != ';' by {
        ExampleTokensCharacters(tokens);
      }
      CleanSingle(tokens[k], ';');
    }
    SplitJoin(tokens, ";");
  }

  /** The descriptor of a default-format reply for one instance. */
  lemma DescribeExample(text: string)
    requires text == ExampleText
    ensures Describe(text) == Success(ExampleInstance)
  {
    ExampleTextSplit(text, ExampleTokens);
    ExampleTokensDescribed();
  }

  // ---------------------------------------------------------------------------
  // The constructor's loop
  // ---------------------------------------------------------------------------

  lemma FirstFailureAppend(tokens: seq<string>, a: seq<nat>, b: seq<nat>)
    requires FirstFailure(tokens, a).Some?
    ensures FirstFailure(tokens, a + b) == FirstFailure(tokens, a)
    decreases |b|
  {
    if |b| > 0 {
      assert (a + b)[..|a + b| - 1] == a + b[..|b| - 1];
      FirstFailureAppend(tokens, a, b[..|b| - 1]);
    } else {
      assert a + b == a;
    }
  }

  lemma {:induction false} LastValueExtend(tokens: seq<string>, visited: seq<nat>, p: nat, key: string)
    ensures LastValue(tokens, visited + [p], key)
            == if HasValue(tokens, p, key) then Some(tokens[p + 1]) else LastValue(tokens, visited, key)
  {
    assert (visited + [p])[..|visited|] == visited;
  }

  lemma FirstFailureExtend(tokens: seq<string>, visited: seq<nat>, p: nat)
    ensures FirstFailure(tokens, visited + [p])
            == if FirstFailure(tokens, visited).Some? then FirstFailure(tokens, visited) else StepFailure(tokens, p)
  {
    assert (visited + [p])[..|visited|] == visited;
  }

  /** One more key position changes only the field of the key read there. */
  lemma AssembleExtend(tokens: seq<string>, visited: seq<nat>, p: nat)
    requires p < |tokens| && (ReadsValue(tokens[p]) ==> p + 1 < |tokens|)
    requires tokens[p] == "Version" ==> ParseVersion(tokens[p + 1]).Success?
    requires tokens[p] == "tcp" ==> ParseInt32(tokens[p + 1]).Success?
    ensures var before := Assemble(tokens, visited);
            var key := tokens[p];
            Assemble(tokens, visited + [p])
            == if key == "ServerName" then before.(serverName := Some(tokens[p + 1]))
               else if key == "InstanceName" then before.(instanceName := Some(tokens[p + 1]))
               else if key == "IsClustered" then before.(isClustered := tokens[p + 1] == "Yes")
               else if key == "Version" then before.(version := Some(ParseVersion(tokens[p + 1]).value))
               else if key == "np" then before.(namedPipe := Some(tokens[p + 1]))
               else if key == "tcp" then before.(tcpPort := Some(ParseInt32(tokens[p + 1]).value))
               else if key == "rpc" then before.(rpcName := Some(tokens[p + 1]))
               else if key == "spx" then before.(spxName := Some(tokens[p + 1]))
               else if key == "adsp" then before.(adspName := Some(tokens[p + 1]))
               else before
  {
    LastValueExtend(tokens, visited, p, "ServerName");
    LastValueExtend(tokens, visited, p, "InstanceName");
    LastValueExtend(tokens, visited, p, "IsClustered");
    LastValueExtend(tokens, visited, p, "Version");
    LastValueExtend(tokens, visited, p, "np");
    LastValueExtend(tokens, visited, p, "tcp");
    LastValueExtend(tokens, visited, p, "rpc");
    LastValueExtend(tokens, visited, p, "spx");
    LastValueExtend(tokens, visited, p, "adsp");
  }

  lemma WalkStep(tokens: seq<string>, visited: seq<nat>, i: nat)
    requires i < |tokens| && visited + VisitedFrom(tokens, i) == KeyPositions(tokens)
    ensures (visited + [i]) + VisitedFrom(tokens, Next(tokens, i)) == KeyPositions(tokens)
  {
  }

  /** The walk has reached `i` with no failure so far and the case at `i` throws. */
  lemma FailsAt(tokens: seq<string>, visited: seq<nat>, i: nat)
    requires visited + VisitedFrom(tokens, i) == KeyPositions(tokens)
    requires i < |tokens| && FirstFailure(tokens, visited) == None && StepFailure(tokens, i).Some?
    ensures DescribeTokens(tokens) == Failure(StepFailure(tokens, i).value)
  {
    var rest := VisitedFrom(tokens, Next(tokens, i));
    assert KeyPositions(tokens) == (visited + [i]) + rest;
    assert (visited + [i])[..|visited|] == visited;
    FirstFailureAppend(tokens, visited + [i], rest);
  }

  /** The switch on the key at `i`: store the value after it in its field, or
      throw as the case does. `visited` are the key positions before `i`. */
  method ApplyKey(strings: seq<string>, i: nat, instance: SqlInstance, ghost visited: seq<nat>)
    returns (r: Result<SqlInstance, Error>)
    requires i < |strings| && instance == Assemble(strings, visited)
    ensures r.Failure? <==> StepFailure(strings, i).Some?
    ensures r.Failure? ==> r.error == StepFailure(strings, i).value
    ensures r.Success? ==> r.value == Assemble(strings, visited + [i])
  {
    var key := strings[i];
    if ReadsValue(key) && i + 1 >= |strings| {
      // strings[i + 1] is out of range
      return Failure(IndexOutOfRangeException);
    }
    if key == "Version" {
      var version := ParseVersion(strings[i + 1]);
      if version.Failure? {
        return Failure(version.error);
      }
      AssembleExtend(strings, visited, i);
      return Success(instance.(version := Some(version.value)));
    }
    if key == "tcp" {
      var port := ParseInt32(strings[i + 1]);
      if port.Failure? {
        return Failure(port.error);
      }
      AssembleExtend(strings, visited, i);
      return Success(instance.(tcpPort := Some(port.value)));
    }
    AssembleExtend(strings, visited, i);
    if key == "ServerName" {
      r := Success(instance.(serverName := Some(strings[i + 1])));
    } else if key == "InstanceName" {
      r := Success(instance.(instanceName := Some(strings[i + 1])));
    } else if key == "IsClustered" {
      r := Success(instance.(isClustered := strings[i + 1] == "Yes"));
    } else if key == "np" {
      r := Success(instance.(namedPipe := Some(strings[i + 1])));
    } else if key == "rpc" {
      r := Success(instance.(rpcName := Some(strings[i + 1])));
    } else if key == "spx" {
      r := Success(instance.(spxName := Some(strings[i + 1])));
    } else if key == "adsp" {
      r := Success(instance.(adspName := Some(strings[i + 1])));
    } else {
      r := Success(instance);
    }
  }

  /** SqlInstance.Parse, that is the private constructor: split on ';', then a
      for loop whose cursor steps by 2 and jumps 4 further on `bv`; the first
      case that throws ends the walk. */
  method Parse(str: string) returns (r: Result<SqlInstance, Error>)
    ensures r == Describe(str)
  {
    var strings := Split(str, ";");
    var instance := Unset;
    ghost var visited: seq<nat> := [];
    var i: nat := 0;
    while i < |strings|
      invariant visited + VisitedFrom(strings, i) == KeyPositions(strings)
      invariant FirstFailure(strings, visited) == None
      invariant instance == Assemble(strings, visited)
      decreases |strings| - i
    {
      var step := ApplyKey(strings, i, instance, visited);
      if step.Failure? {
        FailsAt(strings, visited, i);
        return Failure(step.error);
      }
      FirstFailureExtend(strings, visited, i);
      WalkStep(strings, visited, i);
      instance := step.value;
      visited := visited + [i];
      if strings[i] == "bv" {
        i := i + 4;
      }
      i := i + 2;
    }
    assert visited == KeyPositions(strings) by {
      assert VisitedFrom(strings, i) == [];
      assert visited + [] == visited;
    }
    r := Success(instance);
  }
}
