/** `scripts/promote-docker-latest.sh`: moving the `latest` tag to the highest published stable release. What the
    release list, Git and the image registry answer is input; a registry may fail or wrongly answer "not found". */
module Promotion {
  import opened Results
  import opened Versions

  type Digest = string

  datatype Manifest = Manifest(digest: Digest, revision: string, version: string, platforms: set<string>)

  /** One `imagetools inspect`: a well-formed manifest, malformed JSON, an explicit not-found, or another failure. */
  datatype Attempt = Seen(m: Manifest) | Malformed | SaidNotFound | OtherFailure

  const ATTEMPTS := 3

  const PLATFORMS: set<string> := {"linux/386", "linux/amd64", "linux/arm/v6", "linux/arm/v7", "linux/arm64"}

  predicate IsHex(s: string) {
    forall i :: 0 <= i < |s| ==> '0' <= s[i] <= '9' || 'a' <= s[i] <= 'f'
  }

  predicate IsDigest(d: string) {
    |d| == 71 && d[..7] == "sha256:" && IsHex(d[7..])
  }

  predicate IsRevision(r: string) {
    (|r| == 40 || |r| == 64) && IsHex(r)
  }

  predicate OnlyHexDigits(s: string) {
    forall c :: c in s ==> c in "0123456789abcdef"
  }

  lemma HexDigit(c: char)
    ensures c in "0123456789abcdef" <==> '0' <= c <= '9' || 'a' <= c <= 'f'
  {
  }

  lemma HexText(s: string)
    ensures IsHex(s) <==> OnlyHexDigits(s)
  {
    forall c: char
      ensures c in "0123456789abcdef" <==> '0' <= c <= '9' || 'a' <= c <= 'f'
    {
      HexDigit(c);
    }
    if OnlyHexDigits(s) {
      assert forall i :: 0 <= i < |s| ==> s[i] in s;
    }
  }

  /** `^sha256:[0-9a-f]{64}$` and `^([0-9a-f]{40}|[0-9a-f]{64})$`, character by character. */
  lemma DigestsAndRevisions(s: string)
    ensures IsDigest(s) <==> exists h :: s == "sha256:" + h && |h| == 64 && OnlyHexDigits(h)
    ensures IsRevision(s) <==> (|s| == 40 || |s| == 64) && OnlyHexDigits(s)
  {
    hide IsHex, OnlyHexDigits;
    HexText(s);
    if |s| >= 7 {
      HexText(s[7..]);
    }
    if IsDigest(s) {
      assert s == "sha256:" + s[7..];
    }
    forall h | s == "sha256:" + h && |h| == 64 && OnlyHexDigits(h)
      ensures IsDigest(s)
    {
      assert s[..7] == "sha256:" && s[7..] == h;
    }
  }

  /** Everything a run reads, in the order in which it reads it. */
  datatype Observed = Observed(
    listings: seq<Option<seq<string>>>,
    revision: Option<string>,
    prefixed: seq<Attempt>,
    unprefixed: seq<Attempt>,
    latest: seq<Attempt>,
    createSucceeds: bool,
    createApplied: bool,
    after: seq<Attempt>)

  datatype Failure = NoReleaseList | NoStableRelease | ExactReleaseInvalid | LatestUnknown | LatestInvalid
                   | LatestNotOfficial | LatestNewer | LatestSameVersionDifferentImage | CreateFailed | NotVerified

  datatype RunOutcome = Failed(why: Failure) | AlreadyCurrent | Promoted

  /////////////////////////////////////////////// the pieces

  /** The first release list that shows the completed release. */
  function ReleaseRows(listings: seq<Option<seq<string>>>, releaseTag: string): (rows: Option<seq<string>>)
    ensures rows.Some? ==> releaseTag in rows.value && rows in listings
  {
    if listings == [] then None
    else if listings[0].Some? && releaseTag in listings[0].value then listings[0]
    else ReleaseRows(listings[1..], releaseTag)
  }

  method ListReleases(listings: seq<Option<seq<string>>>, releaseTag: string) returns (rows: Option<seq<string>>)
    requires |listings| == ATTEMPTS
    ensures rows == ReleaseRows(listings, releaseTag)
    ensures rows.Some? ==> releaseTag in rows.value && rows in listings
  {
    rows := None;
    var attempt := 0;
    while attempt < ATTEMPTS
      invariant 0 <= attempt <= ATTEMPTS && rows == None
      invariant ReleaseRows(listings[attempt..], releaseTag) == ReleaseRows(listings, releaseTag)
    {
      assert listings[attempt..][1..] == listings[attempt + 1..];
      if listings[attempt].Some? {
        if releaseTag in listings[attempt].value {
          return listings[attempt];
        }
      }
      attempt := attempt + 1;
    }
  }

  function FirstSeen(attempts: seq<Attempt>): Option<Manifest> {
    if attempts == [] then None
    else if attempts[0].Seen? then Some(attempts[0].m)
    else FirstSeen(attempts[1..])
  }

  method InspectRequired(attempts: seq<Attempt>) returns (m: Option<Manifest>)
    requires |attempts| == ATTEMPTS
    ensures m == FirstSeen(attempts)
    ensures m.Some? ==> Seen(m.value) in attempts
  {
    var attempt := 0;
    while attempt < ATTEMPTS
      invariant 0 <= attempt <= ATTEMPTS && FirstSeen(attempts[attempt..]) == FirstSeen(attempts)
    {
      assert attempts[attempt..][1..] == attempts[attempt + 1..];
      if attempts[attempt].Seen? {
        return Some(attempts[attempt].m);
      }
      attempt := attempt + 1;
    }
    return None;
  }

  datatype Existence = Exists(m: Manifest) | Missing | Ambiguous

  /** Absence is believed only after three explicit not-found answers. */
  function LatestExistence(attempts: seq<Attempt>): Existence {
    if FirstSeen(attempts).Some? then Exists(FirstSeen(attempts).value)
    else if forall a :: a in attempts ==> a.SaidNotFound? then Missing
    else Ambiguous
  }

  method InspectOptionalLatest(attempts: seq<Attempt>) returns (e: Existence)
    requires |attempts| == ATTEMPTS
    ensures e == LatestExistence(attempts)
  {
    var notFound := 0;
    var attempt := 0;
    while attempt < ATTEMPTS
      invariant 0 <= notFound <= attempt <= ATTEMPTS && FirstSeen(attempts[attempt..]) == FirstSeen(attempts)
      invariant notFound == attempt <==> forall j :: 0 <= j < attempt ==> attempts[j].SaidNotFound?
    {
      assert attempts[attempt..][1..] == attempts[attempt + 1..];
      if attempts[attempt].Seen? {
        return Exists(attempts[attempt].m);
      }
      if attempts[attempt].SaidNotFound? {
        notFound := notFound + 1;
      }
      attempt := attempt + 1;
    }
    assert notFound == 3 <==> forall a :: a in attempts ==> a.SaidNotFound? by {
      assert forall j :: 0 <= j < 3 ==> attempts[j] in attempts;
    }
    return if notFound == 3 then Missing else Ambiguous;
  }

  /** One immutable alias of the release is what Git and the release say it is. */
  predicate AliasValid(attempts: seq<Attempt>, tag: string, revision: string) {
    var m := FirstSeen(attempts);
    && m.Some? && IsDigest(m.value.digest) && m.value.revision == revision && m.value.version == tag
    && PLATFORMS <= m.value.platforms
  }

  /** The digest and revision of the release, when both aliases are valid and share one manifest. */
  function ExactRelease(o: Observed, tag: string): Option<(Digest, string)> {
    if o.revision.None? || !IsRevision(o.revision.value) then None
    else if !AliasValid(o.prefixed, tag, o.revision.value) || !AliasValid(o.unprefixed, tag, o.revision.value) then None
    else if FirstSeen(o.prefixed).value.digest != FirstSeen(o.unprefixed).value.digest then None
    else Some((FirstSeen(o.prefixed).value.digest, o.revision.value))
  }

  method ValidateExactRelease(o: Observed, tag: string) returns (r: Option<(Digest, string)>)
    requires |o.prefixed| == |o.unprefixed| == ATTEMPTS
    ensures r == ExactRelease(o, tag)
  {
    if o.revision.None? || !IsRevision(o.revision.value) {
      return None;
    }
    var firstDigest := "";
    var aliases := [o.prefixed, o.unprefixed];
    for i := 0 to 2
      invariant i == 0 ==> firstDigest == ""
      invariant i >= 1 ==> AliasValid(o.prefixed, tag, o.revision.value)
                           && firstDigest == FirstSeen(o.prefixed).value.digest && firstDigest != ""
      invariant i == 2 ==> AliasValid(o.unprefixed, tag, o.revision.value)
                           && firstDigest == FirstSeen(o.unprefixed).value.digest
    {
      var m := InspectRequired(aliases[i]);
      if m.None? || !IsDigest(m.value.digest) || m.value.revision != o.revision.value || m.value.version != tag
         || !(PLATFORMS <= m.value.platforms) {
        return None;
      }
      if firstDigest != "" && m.value.digest != firstDigest {
        return None;
      }
      firstDigest := m.value.digest;
    }
    return Some((firstDigest, o.revision.value));
  }

  datatype Decision = Refuse(why: Failure) | Keep | Create

  /** What the run does about the `latest` it found, given the highest release and its validated image. */
  function Decide(e: Existence, rows: seq<string>, highest: string, digest: Digest, revision: string): Decision
    requires IsStable(highest)
  {
    match e
    case Ambiguous => Refuse(LatestUnknown)
    case Missing => Create
    case Exists(m) =>
      if !IsDigest(m.digest) || !IsRevision(m.revision) || !IsStable(m.version) then Refuse(LatestInvalid)
      else if m.version !in rows then Refuse(LatestNotOfficial)
      else if Below(VersionOf(highest), VersionOf(m.version)) then Refuse(LatestNewer)
      else if m.version == highest then
        if m.digest == digest && m.revision == revision then Keep else Refuse(LatestSameVersionDifferentImage)
      else Create
  }

  /** The branch for a `latest` that is newer than the highest release cannot be taken. */
  lemma NewerBranchUnreachable(e: Existence, rows: seq<string>, highest: string, digest: Digest, revision: string)
    requires IsHighest(rows, highest)
    ensures Decide(e, rows, highest, digest, revision) != Refuse(LatestNewer)
  {
  }

  /** A whole run: the new value of `latest` and the outcome. */
  function Run(latest: Option<Digest>, o: Observed, releaseTag: string, highest: string): (Option<Digest>, RunOutcome) {
    var rows := ReleaseRows(o.listings, releaseTag);
    if rows.None? then (latest, Failed(NoReleaseList))
    else if !IsStable(highest) then (latest, Failed(NoStableRelease))
    else
      var exact := ExactRelease(o, highest);
      if exact.None? then (latest, Failed(ExactReleaseInvalid))
      else
        var (digest, revision) := exact.value;
        match Decide(LatestExistence(o.latest), rows.value, highest, digest, revision)
        case Refuse(why) => (latest, Failed(why))
        case Keep => (latest, AlreadyCurrent)
        case Create =>
          var moved := if o.createApplied then Some(digest) else latest;
          if !o.createSucceeds then (moved, Failed(CreateFailed))
          else
            var seen := FirstSeen(o.after);
            if seen.None? || seen.value.digest != digest || seen.value.revision != revision
               || seen.value.version != highest then (moved, Failed(NotVerified))
            else (moved, Promoted)
  }

  /** The highest stable tag of the list the run obtained, or the empty string. */
  ghost predicate HighestOf(o: Observed, releaseTag: string, highest: string) {
    var rows := ReleaseRows(o.listings, releaseTag);
    rows.Some? ==>
      if exists t :: t in rows.value && IsStable(t) then IsHighest(rows.value, highest) else highest == []
  }

  ghost predicate Attempted(o: Observed) {
    |o.listings| == |o.prefixed| == |o.unprefixed| == |o.latest| == |o.after| == ATTEMPTS
  }

  class Registry {
    var latest: Option<Digest>

    /** The script, from the release list to the final verification. */
    method Reconcile(o: Observed, releaseTag: string) returns (outcome: RunOutcome, ghost highest: string)
      requires Attempted(o)
      modifies this
      ensures HighestOf(o, releaseTag, highest)
      ensures (latest, outcome) == Run(old(latest), o, releaseTag, highest)
    {
      highest := [];
      var rows := ListReleases(o.listings, releaseTag);
      if rows.None? {
        return Failed(NoReleaseList), highest;
      }
      var stable, top := HighestTag(rows.value);
      highest := top;
      if top == [] {
        assert forall t :: t in rows.value && IsStable(t) ==> t in stable;
        return Failed(NoStableRelease), highest;
      }
      var exact := ValidateExactRelease(o, top);
      if exact.None? {
        return Failed(ExactReleaseInvalid), highest;
      }
      var digest, revision := exact.value.0, exact.value.1;
      var existence := InspectOptionalLatest(o.latest);
      if existence.Ambiguous? {
        return Failed(LatestUnknown), highest;
      }
      if existence.Exists? {
        var m := existence.m;
        if !IsDigest(m.digest) || !IsRevision(m.revision) || !IsStable(m.version) {
          return Failed(LatestInvalid), highest;
        }
        if m.version !in stable {
          return Failed(LatestNotOfficial), highest;
        }
        var comparison := CompareStableVersions(top, m.version);
        if comparison == -1 {
          return Failed(LatestNewer), highest;
        }
        if comparison == 0 {
          if m.digest == digest && m.revision == revision {
            return AlreadyCurrent, highest;
          }
          return Failed(LatestSameVersionDifferentImage), highest;
        }
      }
      if o.createApplied {
        latest := Some(digest);
      }
      if !o.createSucceeds {
        return Failed(CreateFailed), highest;
      }
      var updated := InspectRequired(o.after);
      if updated.None? || updated.value.digest != digest || updated.value.revision != revision
         || updated.value.version != top {
        return Failed(NotVerified), highest;
      }
      return Promoted, highest;
    }
  }

  /////////////////////////////////////////////// over all runs

  /** Images are content-addressed and never change. */
  type Images = map<Digest, Manifest>

  /** A manifest that was seen is the registry's; `latest`, when seen, is what the tag points to. A not-found answer is
      not trusted to be true. */
  ghost predicate Truthful(images: Images, latest: Option<Digest>, o: Observed) {
    && (forall m :: Seen(m) in o.prefixed || Seen(m) in o.unprefixed ==> m.digest in images && images[m.digest] == m)
    && ShowsLatest(images, latest, o.latest)
  }

  ghost predicate ShowsLatest(images: Images, latest: Option<Digest>, attempts: seq<Attempt>) {
    forall m :: Seen(m) in attempts ==> latest == Some(m.digest) && m.digest in images && images[m.digest] == m
  }

  ghost predicate Stable(images: Images, latest: Option<Digest>, known: set<string>) {
    latest.Some? ==>
      && latest.value in images && IsStable(images[latest.value].version) && images[latest.value].version in known
  }

  /** One serialized run: the release list it goes by holds at least the releases known before it. */
  ghost predicate Step(images: Images, known: set<string>, latest: Option<Digest>, o: Observed, releaseTag: string,
                       highest: string, known': set<string>, latest': Option<Digest>)
  {
    && Attempted(o) && Truthful(images, latest, o) && HighestOf(o, releaseTag, highest)
    && latest' == Run(latest, o, releaseTag, highest).0
    && known <= known'
    && (forall rows :: ReleaseRows(o.listings, releaseTag) == Some(rows) ==> forall t :: t in rows <==> t in known')
  }

  lemma {:induction false} SeenIsAttempt(attempts: seq<Attempt>)
    ensures FirstSeen(attempts).Some? ==> Seen(FirstSeen(attempts).value) in attempts
  {
    if attempts != [] {
      SeenIsAttempt(attempts[1..]);
    }
  }

  /** `latest` is still there and not at a lower version. */
  ghost predicate NotOlder(images: Images, latest: Option<Digest>, latest': Option<Digest>)
    requires latest.Some? ==> latest.value in images && IsStable(images[latest.value].version)
    requires latest'.Some? ==> latest'.value in images && IsStable(images[latest'.value].version)
  {
    latest.Some? ==>
      && latest'.Some?
      && !Below(VersionOf(images[latest'.value].version), VersionOf(images[latest.value].version))
  }

  /**
    * One run. The invariant is kept; `latest` never becomes older, even if the registry wrongly denied that it exists;
    * and if it changed at all, it is now the validated digest of the highest release in the list.
    */
  lemma StepIsMonotone(images: Images, known: set<string>, latest: Option<Digest>, o: Observed, releaseTag: string,
                       highest: string, known': set<string>, latest': Option<Digest>)
    requires Stable(images, latest, known)
    requires Step(images, known, latest, o, releaseTag, highest, known', latest')
    ensures Stable(images, latest', known') && NotOlder(images, latest, latest')
    ensures latest' != latest ==>
              && latest'.Some? && images[latest'.value].version == highest
              && ImageIsTheRelease(images[latest'.value], o, highest)
              && (LatestExistence(o.latest).Missing? ||
                  exists m :: Seen(m) in o.latest && m.version in known' && IsStable(m.version)
                              && Below(VersionOf(m.version), VersionOf(highest)))
              && forall t :: t in known' && IsStable(t) ==> !Below(VersionOf(highest), VersionOf(t))
    ensures latest' != latest && latest.Some? && FirstSeen(o.latest).Some? ==>
              Below(VersionOf(images[latest.value].version), VersionOf(highest))
  {
    hide IsStable, ExactRelease, Below, VersionOf, ReleaseRows, FirstSeen, IsDigest, IsRevision;
    if latest' != latest {
      EmptyIsNotStable();
      var rows := ReleaseRows(o.listings, releaseTag);
      assert IsHighest(rows.value, highest);
      ValidatedImage(images, latest, o, highest);
      SeenIsAttempt(o.latest);
      if latest.Some? {
        TotalOrNot(highest, images[latest.value].version);
      }
    } else if latest.Some? {
      NotBelowItself(images[latest.value].version);
    }
  }

  /** Both aliases showed this very manifest, and Git and the release vouch for it. */
  ghost predicate ImageIsTheRelease(m: Manifest, o: Observed, tag: string) {
    && FirstSeen(o.prefixed) == Some(m) && FirstSeen(o.unprefixed) == Some(m)
    && o.revision == Some(m.revision) && IsRevision(m.revision) && m.version == tag
    && IsDigest(m.digest) && PLATFORMS <= m.platforms
  }

  /**
    * What the script is for. A run that ends well leaves `latest` at an image that Git and both aliases vouch for as
    * the highest stable release, in a list that shows the completed release. Nothing is asked of the create itself:
    * the final look at the tag, which must be truthful, is what settles it.
    */
  lemma SuccessIsTheHighestRelease(images: Images, latest: Option<Digest>, o: Observed, releaseTag: string,
                                   highest: string)
    requires Truthful(images, latest, o) && HighestOf(o, releaseTag, highest)
    requires ShowsLatest(images, Run(latest, o, releaseTag, highest).0, o.after)
    requires !Run(latest, o, releaseTag, highest).1.Failed?
    ensures var latest' := Run(latest, o, releaseTag, highest).0;
            var rows := ReleaseRows(o.listings, releaseTag);
            && rows.Some? && releaseTag in rows.value && IsHighest(rows.value, highest)
            && latest'.Some? && latest'.value in images && ImageIsTheRelease(images[latest'.value], o, highest)
  {
    hide IsStable, ExactRelease, Below, VersionOf, FirstSeen, IsRevision;
    EmptyIsNotStable();
    ValidatedImage(images, latest, o, highest);
    SeenIsAttempt(o.latest);
    SeenIsAttempt(o.after);
  }

  /** The tag as it was found may be moved: three times the answer was that it does not exist, or it shows a well-formed
      image of an older release of the list. */
  ghost predicate MayMove(o: Observed, rows: seq<string>, highest: string)
    requires IsStable(highest)
  {
    || (forall a :: a in o.latest ==> a == SaidNotFound)
    || exists l ::
         && FirstSeen(o.latest) == Some(l) && IsDigest(l.digest) && IsRevision(l.revision) && IsStable(l.version)
         && l.version in rows && Below(VersionOf(l.version), VersionOf(highest))
  }

  /** The final look at the tag showed this image, as far as the script compares. */
  ghost predicate Confirms(attempts: seq<Attempt>, m: Manifest) {
    exists u :: FirstSeen(attempts) == Some(u) && u.digest == m.digest && u.revision == m.revision
                && u.version == m.version
  }

  /**
    * Progress, and its exact limits. Given the list and the image `m` of its highest release, a run confirms a tag that
    * shows `m`, moves a tag that may be moved, and otherwise leaves the tag alone and says why.
    */
  lemma RunExactly(images: Images, latest: Option<Digest>, o: Observed, releaseTag: string, highest: string,
                   rows: seq<string>, m: Manifest)
    requires Truthful(images, latest, o) && ReleaseRows(o.listings, releaseTag) == Some(rows)
    requires IsHighest(rows, highest) && ImageIsTheRelease(m, o, highest)
    ensures FirstSeen(o.latest) == Some(m) ==>
              Run(latest, o, releaseTag, highest) == (latest, AlreadyCurrent)
    ensures MayMove(o, rows, highest) ==>
              Run(latest, o, releaseTag, highest) == (
                if o.createApplied then Some(m.digest) else latest,
                if !o.createSucceeds then Failed(CreateFailed)
                else if Confirms(o.after, m) then Promoted
                else Failed(NotVerified))
    ensures FirstSeen(o.latest) != Some(m) && !MayMove(o, rows, highest) ==>
              Run(latest, o, releaseTag, highest) == (latest, Failed(
                if FirstSeen(o.latest).None? then LatestUnknown
                else
                  var l := FirstSeen(o.latest).value;
                  if !IsDigest(l.digest) || !IsRevision(l.revision) || !IsStable(l.version) then LatestInvalid
                  else if l.version !in rows then LatestNotOfficial
                  else LatestSameVersionDifferentImage))
  {
    hide Below, VersionOf, ReleaseRows, FirstSeen, IsDigest, IsRevision, IsStable, ExactRelease;
    ExactIsTheRelease(o, highest, m);
    NotBelowItself(highest);
    SeenIsAttempt(o.latest);
    if FirstSeen(o.latest).Some? {
      var l := FirstSeen(o.latest).value;
      SeenImage(images, latest, o, m, l);
      if IsStable(l.version) {
        TotalOrNot(highest, l.version);
      }
    }
  }

  /** A run goes well for the highest release of the list, whose image is `m`. */
  ghost predicate GoesWell(o: Observed, rows: seq<string>, highest: string, m: Manifest) {
    && IsHighest(rows, highest) && ImageIsTheRelease(m, o, highest)
    && (FirstSeen(o.latest) == Some(m) ||
        (MayMove(o, rows, highest) && o.createSucceeds && Confirms(o.after, m)))
  }

  /** Exactly when a run ends well. */
  lemma EndsWellExactly(images: Images, latest: Option<Digest>, o: Observed, releaseTag: string, highest: string)
    requires Truthful(images, latest, o) && HighestOf(o, releaseTag, highest)
    ensures !Run(latest, o, releaseTag, highest).1.Failed? <==>
            exists rows, m :: ReleaseRows(o.listings, releaseTag) == Some(rows) && GoesWell(o, rows, highest, m)
  {
    hide Run, MayMove, Confirms, ImageIsTheRelease, ReleaseRows, FirstSeen, IsStable, Truthful, Below, VersionOf;
    NothingToGoBy(images, latest, o, releaseTag, highest);
    forall rows, m |
      ReleaseRows(o.listings, releaseTag) == Some(rows) && IsHighest(rows, highest) && ImageIsTheRelease(m, o, highest)
      ensures !Run(latest, o, releaseTag, highest).1.Failed? <==> GoesWell(o, rows, highest, m)
    {
      RunExactly(images, latest, o, releaseTag, highest, rows, m);
    }
  }

  lemma ExactIsTheRelease(o: Observed, tag: string, m: Manifest)
    requires ImageIsTheRelease(m, o, tag)
    ensures ExactRelease(o, tag) == Some((m.digest, m.revision))
  {
    hide FirstSeen, IsDigest, IsRevision;
  }

  lemma SeenImage(images: Images, latest: Option<Digest>, o: Observed, m: Manifest, l: Manifest)
    requires Truthful(images, latest, o) && FirstSeen(o.prefixed) == Some(m) && FirstSeen(o.latest) == Some(l)
    ensures l.digest == m.digest ==> l == m
  {
    SeenIsAttempt(o.prefixed);
    SeenIsAttempt(o.latest);
  }

  /** A run without a list, without a stable release in it, or without an image of the highest one fails as such and
      leaves the tag alone. */
  lemma NothingToGoBy(images: Images, latest: Option<Digest>, o: Observed, releaseTag: string, highest: string)
    requires Truthful(images, latest, o) && HighestOf(o, releaseTag, highest)
    ensures var rows, run := ReleaseRows(o.listings, releaseTag), Run(latest, o, releaseTag, highest);
            && (rows.None? ==> run == (latest, Failed(NoReleaseList)))
            && (rows.Some? && (forall t :: t in rows.value ==> !IsStable(t)) ==>
                  run == (latest, Failed(NoStableRelease)))
            && (rows.Some? && (exists t :: t in rows.value && IsStable(t)) &&
                (forall m :: !ImageIsTheRelease(m, o, highest)) ==>
                  run == (latest, Failed(ExactReleaseInvalid)))
  {
    hide Below, VersionOf, ReleaseRows, FirstSeen, IsDigest, IsRevision, IsStable, ExactRelease;
    EmptyIsNotStable();
    ValidatedImage(images, latest, o, highest);
  }

  /** What the loops look for, told by positions: the first attempt that showed a manifest. */
  lemma {:induction false} FirstSeenExactly(attempts: seq<Attempt>, m: Manifest)
    ensures FirstSeen(attempts) == Some(m) <==>
            exists i :: 0 <= i < |attempts| && attempts[i] == Seen(m) && forall j :: 0 <= j < i ==> !attempts[j].Seen?
  {
    if attempts != [] && !attempts[0].Seen? {
      var rest := attempts[1..];
      FirstSeenExactly(rest, m);
      if FirstSeen(rest) == Some(m) {
        var i :| 0 <= i < |rest| && rest[i] == Seen(m) && forall j :: 0 <= j < i ==> !rest[j].Seen?;
        assert attempts[i + 1] == Seen(m) && forall j :: 1 <= j < i + 1 ==> attempts[j] == rest[j - 1];
      }
      if i :| 0 <= i < |attempts| && attempts[i] == Seen(m) && forall j :: 0 <= j < i ==> !attempts[j].Seen? {
        assert rest[i - 1] == Seen(m) && forall j :: 0 <= j < i - 1 ==> rest[j] == attempts[j + 1];
      }
    }
  }

  /** The first listing that shows the completed release. */
  lemma {:induction false} ReleaseRowsExactly(listings: seq<Option<seq<string>>>, releaseTag: string, rows: seq<string>)
    ensures ReleaseRows(listings, releaseTag) == Some(rows) <==>
            exists i :: 0 <= i < |listings| && listings[i] == Some(rows) && releaseTag in rows
                        && forall j :: 0 <= j < i ==> !Shows(listings[j], releaseTag)
  {
    hide Shows;
    if listings != [] {
      ShowsOrGoOn(listings, releaseTag);
    }
    if listings != [] && !Shows(listings[0], releaseTag) {
      var rest := listings[1..];
      ReleaseRowsExactly(rest, releaseTag, rows);
      if ReleaseRows(rest, releaseTag) == Some(rows) {
        var i :| 0 <= i < |rest| && rest[i] == Some(rows) && releaseTag in rows
                 && forall j :: 0 <= j < i ==> !Shows(rest[j], releaseTag);
        assert listings[i + 1] == Some(rows) && forall j :: 1 <= j < i + 1 ==> listings[j] == rest[j - 1];
      }
      if i :| 0 <= i < |listings| && listings[i] == Some(rows) && releaseTag in rows
              && forall j :: 0 <= j < i ==> !Shows(listings[j], releaseTag) {
        assert rest[i - 1] == Some(rows) && forall j :: 0 <= j < i - 1 ==> rest[j] == listings[j + 1];
      }
    }
  }

  lemma ShowsOrGoOn(listings: seq<Option<seq<string>>>, releaseTag: string)
    requires listings != []
    ensures ReleaseRows(listings, releaseTag)
            == if Shows(listings[0], releaseTag) then listings[0] else ReleaseRows(listings[1..], releaseTag)
    ensures forall rows :: listings[0] == Some(rows) && releaseTag in rows ==> Shows(listings[0], releaseTag)
  {
  }

  ghost predicate Shows(listing: Option<seq<string>>, releaseTag: string) {
    listing.Some? && releaseTag in listing.value
  }

  /** Against a registry that does not deny an existing `latest`, no growth is needed: whatever the release list, a run
      moves an existing tag only to a strictly higher version. */
  lemma HonestRegistryNeedsNoGrowth(images: Images, latest: Option<Digest>, o: Observed, releaseTag: string,
                                    highest: string)
    requires Truthful(images, latest, o) && HighestOf(o, releaseTag, highest)
    requires latest.Some? && latest.value in images && IsStable(images[latest.value].version)
    requires !LatestExistence(o.latest).Missing?
    ensures var latest' := Run(latest, o, releaseTag, highest).0;
            latest' != latest ==>
              && latest'.Some? && latest'.value in images && IsStable(images[latest'.value].version)
              && Below(VersionOf(images[latest.value].version), VersionOf(images[latest'.value].version))
  {
    hide IsStable, ExactRelease, Below, VersionOf, ReleaseRows, FirstSeen, IsDigest, IsRevision;
    EmptyIsNotStable();
    ValidatedImage(images, latest, o, highest);
    SeenIsAttempt(o.latest);
    if IsStable(highest) {
      TotalOrNot(highest, images[latest.value].version);
    }
  }

  lemma TotalOrNot(a: string, b: string)
    requires IsStable(a) && IsStable(b)
    ensures a == b || Below(VersionOf(a), VersionOf(b)) || Below(VersionOf(b), VersionOf(a))
  {
    if a != b {
      TotalOrder(a, b);
    }
  }

  lemma EmptyIsNotStable()
    ensures !IsStable([])
  {
  }

  lemma NotBelowItself(tag: string)
    requires IsStable(tag)
    ensures !Below(VersionOf(tag), VersionOf(tag))
  {
  }

  lemma ValidatedImage(images: Images, latest: Option<Digest>, o: Observed, tag: string)
    requires Truthful(images, latest, o)
    ensures ExactRelease(o, tag).Some? ==>
              var digest := ExactRelease(o, tag).value.0;
              && digest in images && images[digest].digest == digest && ImageIsTheRelease(images[digest], o, tag)
              && images[digest].revision == ExactRelease(o, tag).value.1
  {
    SeenIsAttempt(o.prefixed);
    SeenIsAttempt(o.unprefixed);
  }

  /** The run asks the registry to create the tag. */
  ghost predicate Creates(o: Observed, releaseTag: string, highest: string) {
    && Ready(o, releaseTag, highest) && IsStable(highest)
    && var (digest, revision) := ExactRelease(o, highest).value;
       Decide(LatestExistence(o.latest), ReleaseRows(o.listings, releaseTag).value, highest, digest, revision) == Create
  }

  /** The run obtains the release list and validates the images of the highest release. */
  ghost predicate Ready(o: Observed, releaseTag: string, highest: string) {
    ReleaseRows(o.listings, releaseTag).Some? && ExactRelease(o, highest).Some?
  }

  /**
    * A run that confirmed the tag, or whose create took effect (whether or not the run then ended well), followed by a
    * run for the same highest release and images: `latest` stays as it is whatever the second run is told. The second
    * run creates if and only if the registry denies the tag, and otherwise confirms it.
    */
  lemma RepeatCreatesNothing(images: Images, latest: Option<Digest>, o: Observed, releaseTag: string, highest: string,
                             o': Observed, releaseTag': string)
    requires Truthful(images, latest, o) && HighestOf(o, releaseTag, highest)
    requires Run(latest, o, releaseTag, highest).1.AlreadyCurrent? ||
             (Creates(o, releaseTag, highest) && o.createApplied)
    requires Truthful(images, Run(latest, o, releaseTag, highest).0, o') && HighestOf(o', releaseTag', highest)
    requires ExactRelease(o', highest).Some? ==> ExactRelease(o', highest) == ExactRelease(o, highest)
    ensures var latest' := Run(latest, o, releaseTag, highest).0;
            var again := Run(latest', o', releaseTag', highest);
            && again.0 == latest'
            && (Creates(o', releaseTag', highest) <==>
                Ready(o', releaseTag', highest) && LatestExistence(o'.latest).Missing?)
            && (again.1.AlreadyCurrent? <==>
                Ready(o', releaseTag', highest) && LatestExistence(o'.latest).Exists?)
  {
    hide IsStable, Below, VersionOf, ReleaseRows, FirstSeen, IsRevision;
    EmptyIsNotStable();
    ValidatedImage(images, latest, o, highest);
    SeenIsAttempt(o.latest);
    SeenIsAttempt(o'.latest);
    RevisionIsValid(o, highest);
    assert IsHighest(ReleaseRows(o.listings, releaseTag).value, highest);
    if Ready(o', releaseTag', highest) {
      assert IsHighest(ReleaseRows(o'.listings, releaseTag').value, highest);
    }
  }

  lemma RevisionIsValid(o: Observed, tag: string)
    ensures ExactRelease(o, tag).Some? ==> IsRevision(ExactRelease(o, tag).value.1)
  {
  }

  /** A state of the world and the run that led to it. */
  datatype Moment = Moment(known: set<string>, latest: Option<Digest>)

  ghost predicate Reachable(images: Images, moments: seq<Moment>) {
    && moments != [] && Stable(images, moments[0].latest, moments[0].known)
    && forall i :: 0 <= i < |moments| - 1 ==> StepBetween(images, moments[i], moments[i + 1])
  }

  ghost predicate StepBetween(images: Images, a: Moment, b: Moment) {
    exists o, releaseTag, highest :: Step(images, a.known, a.latest, o, releaseTag, highest, b.known, b.latest)
  }

  lemma BetweenIsMonotone(images: Images, a: Moment, b: Moment)
    requires Stable(images, a.latest, a.known) && StepBetween(images, a, b)
    ensures Stable(images, b.latest, b.known) && NotOlder(images, a.latest, b.latest)
    ensures b.latest != a.latest ==>
              && b.latest.Some?
              && forall t :: t in b.known && IsStable(t) ==>
                               !Below(VersionOf(images[b.latest.value].version), VersionOf(t))
  {
    hide Stable, NotOlder, Step, IsStable;
    var o, releaseTag, highest :| Step(images, a.known, a.latest, o, releaseTag, highest, b.known, b.latest);
    StepIsMonotone(images, a.known, a.latest, o, releaseTag, highest, b.known, b.latest);
  }

  lemma {:induction false} ReachableIsStable(images: Images, moments: seq<Moment>, i: nat)
    requires Reachable(images, moments) && i < |moments|
    ensures Stable(images, moments[i].latest, moments[i].known)
  {
    hide Stable, StepBetween;
    if i > 0 {
      ReachableIsStable(images, moments, i - 1);
      assert StepBetween(images, moments[i - 1], moments[i - 1 + 1]);
      BetweenIsMonotone(images, moments[i - 1], moments[i]);
    }
  }

  /** Over every sequence of serialized runs, `latest` never moves to a lower version. */
  lemma {:induction false} LatestNeverMovesBack(images: Images, moments: seq<Moment>, i: nat, j: nat)
    requires Reachable(images, moments) && i <= j < |moments|
    ensures Stable(images, moments[i].latest, moments[i].known) && Stable(images, moments[j].latest, moments[j].known)
    ensures NotOlder(images, moments[i].latest, moments[j].latest)
    decreases j
  {
    hide StepBetween, VersionOf, IsStable;
    ReachableIsStable(images, moments, i);
    ReachableIsStable(images, moments, j);
    if i < j {
      LatestNeverMovesBack(images, moments, i, j - 1);
      assert StepBetween(images, moments[j - 1], moments[j - 1 + 1]);
      BetweenIsMonotone(images, moments[j - 1], moments[j]);
    }
  }
}
