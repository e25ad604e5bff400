/** The firmware manifest: a bucket listing merged into one entry per release, and the judgement of
    each entry. */
module Manifest {
  import opened Widths
  import opened Options


  /** An object of the bucket: its file name in two parts, the text a download gives, and what the
      listing says about it. */
  datatype S3Object = S3Object(base: string, ext: string, body: Option<string>, modifiedMillis: nat, size: nat)

  datatype Fields = Fields(image: string, compatible: string, revision: string, timestamp: nat)

  /** What the JSON parser makes of a text: an exception, an object that lacks a field, or all four. */
  datatype Doc = Malformed | Incomplete | Complete(fields: Fields)

  datatype Entry = Entry(valid: bool, s3Name: string, manifest: string, s3TimeStamp: nat, s3Size: nat,
                         revision: string, image: string, compatible: string, timestamp: nat, uri: string)

  type Bucket = map<string, Entry>

  const BLANK: Entry := Entry(false, "", "", 0, 0, "", "", "", 0, "")

  /** The base name less its last eight characters; a shorter one stays whole, because the length
      that is asked for wraps. */
  function ReleaseOf(base: string): string
  {
    if |base| < 8 then base else base[..|base| - 8]
  }

  function DocOf(o: S3Object, parse: string -> Doc): Doc
  {
    if o.body.Some? then parse(o.body.value) else Incomplete
  }

  predicate IsJson(o: S3Object, parse: string -> Doc, r: string)
  {
    o.ext == "json" && o.base == r && DocOf(o, parse).Complete?
  }

  predicate IsBin(o: S3Object, r: string)
  {
    o.ext == "bin" && ReleaseOf(o.base) == r
  }

  /** The listing stops with an exception at a manifest that is no JSON. */
  predicate Raises(o: S3Object, parse: string -> Doc)
  {
    o.ext == "json" && DocOf(o, parse).Malformed?
  }

  function WithJson(e: Entry, o: S3Object, f: Fields): Entry
    requires o.body.Some?
  {
    e.(timestamp := f.timestamp, compatible := f.compatible, revision := f.revision, image := f.image,
       manifest := o.body.value)
  }

  function WithBin(e: Entry, o: S3Object, uriBase: string): Entry
  {
    e.(s3TimeStamp := o.modifiedMillis / 1000, s3Size := o.size, uri := uriBase + "/" + (o.base + "." + o.ext))
  }

  function Put(b: Bucket, o: S3Object, parse: string -> Doc, uriBase: string): Bucket
  {
    if o.ext == "json" then
      var d := DocOf(o, parse);
      if !d.Complete? then b
      else b[o.base := WithJson(if o.base in b then b[o.base] else BLANK, o, d.fields)]
    else if o.ext == "bin" then
      var r := ReleaseOf(o.base);
      b[r := if r in b then WithBin(b[r], o, uriBase).(s3Name := r) else WithBin(BLANK, o, uriBase)]
    else b
  }

  function Merged(objs: seq<S3Object>, parse: string -> Doc, uriBase: string): Bucket
  {
    if objs == [] then map[] else Put(Merged(objs[..|objs| - 1], parse, uriBase), objs[|objs| - 1], parse, uriBase)
  }

  function Flat(pages: seq<seq<S3Object>>): seq<S3Object>
  {
    if pages == [] then [] else Flat(pages[..|pages| - 1]) + pages[|pages| - 1]
  }

  ghost predicate Readable(objs: seq<S3Object>, parse: string -> Doc)
  {
    forall o :: o in objs ==> !Raises(o, parse)
  }

  /** Object k is the first manifest of the listing that is no JSON. */
  ghost predicate RaisesFirstAt(objs: seq<S3Object>, parse: string -> Doc, k: nat)
  {
    k < |objs| && Raises(objs[k], parse) && Readable(objs[..k], parse)
  }

  // ----- judgement -----

  datatype Verdict = Accepted | TooOld | BadFormat | MissingJson | Exception

  function VerdictOf(name: string, e: Entry, limit: nat, parse: string -> Doc): Verdict
  {
    match parse(e.manifest)
    case Malformed => Exception
    case Incomplete => MissingJson
    case Complete(f) =>
      if f.timestamp <= limit then TooOld
      else if name + "-upgrade.bin" != f.image then BadFormat
      else Accepted
  }

  function Judged(name: string, e: Entry, limit: nat, parse: string -> Doc): Entry
  {
    match parse(e.manifest)
    case Malformed => e
    case Incomplete => e.(valid := false)
    case Complete(f) =>
      if f.timestamp <= limit then e.(timestamp := f.timestamp, valid := false)
      else e.(timestamp := f.timestamp, compatible := f.compatible, revision := f.revision, image := f.image,
              valid := name + "-upgrade.bin" == f.image)
  }

  function Limit(now: nat, maxAge: nat): nat
  {
    (now - maxAge) % U64
  }

  function WithVerdict(b: Bucket, limit: nat, parse: string -> Doc, v: Verdict): set<string>
  {
    set n | n in b && VerdictOf(n, b[n], limit, parse) == v
  }

  function AllJudged(b: Bucket, limit: nat, parse: string -> Doc): Bucket
  {
    map n | n in b :: Judged(n, b[n], limit, parse)
  }

  datatype Tally = Tally(accepted: nat, rejected: nat, badFormat: nat, missingJson: nat)

  function Plus(t: Tally, v: Verdict): Tally
  {
    match v
    case Accepted => t.(accepted := t.accepted + 1)
    case TooOld => t.(rejected := t.rejected + 1)
    case BadFormat => t.(badFormat := t.badFormat + 1)
    case MissingJson => t.(missingJson := t.missingJson + 1)
    case Exception => t
  }

  /** How many entries get each verdict. */
  function TallyOf(b: Bucket, limit: nat, parse: string -> Doc): Tally
  {
    Tally(|WithVerdict(b, limit, parse, Accepted)|, |WithVerdict(b, limit, parse, TooOld)|,
          |WithVerdict(b, limit, parse, BadFormat)|, |WithVerdict(b, limit, parse, MissingJson)|)
  }

  class ManifestCreator {
    const uriBase: string
    const parse: string -> Doc
    var Content: Bucket

    constructor (u: string, p: string -> Doc)
      ensures uriBase == u && parse == p && Content == map[]
    {
      uriBase, parse, Content := u, p, map[];
    }

    /** Takes in one object of the listing. */
    method ReadObject(o: S3Object)
      modifies this
      ensures Content == Put(old(Content), o, parse, uriBase)
    {
      if o.ext == "json" {
        if o.body.Some? {
          var doc := parse(o.body.value);
          if doc.Complete? {
            var f := doc.fields;
            if o.base in Content {
              Content := Content[o.base := Content[o.base].(timestamp := f.timestamp, compatible := f.compatible,
                                                            revision := f.revision,
                                                            image := f.image, manifest := o.body.value)];
            } else {
              Content := Content[o.base := Entry(false, "", o.body.value, 0, 0, f.revision, f.image, f.compatible,
                                                 f.timestamp, "")];
            }
          }
        }
      } else if o.ext == "bin" {
        var r := ReleaseOf(o.base);
        var stamp, uri := o.modifiedMillis / 1000, uriBase + "/" + (o.base + "." + o.ext);
        if r in Content {
          Content := Content[r := Content[r].(s3TimeStamp := stamp, s3Size := o.size, s3Name := r, uri := uri)];
        } else {
          Content := Content[r := Entry(false, "", "", stamp, o.size, "", "", "", 0, uri)];
        }
      }
    }

    /** Merges a listing of any number of pages; stops at the first manifest that is no JSON. */
    method ReadBucket(pages: seq<seq<S3Object>>) returns (complete: bool)
      modifies this
      ensures complete <==> Readable(Flat(pages), parse)
      ensures complete ==> Content == Merged(Flat(pages), parse, uriBase)
      ensures !complete ==>
                exists k: nat ::
                  RaisesFirstAt(Flat(pages), parse, k) && Content == Merged(Flat(pages)[..k], parse, uriBase)
    {
      hide Put, Merged, Raises;
      Content := map[];
      MergedNothing(parse, uriBase);
      var i := 0;
      while i < |pages|
        invariant 0 <= i <= |pages|
        invariant Content == Merged(Flat(pages[..i]), parse, uriBase) && Readable(Flat(pages[..i]), parse)
      {
        FlatStep(pages, i);
        var before, page, j := Flat(pages[..i]), pages[i], 0;
        assert before + page[..0] == before;
        while j < |page|
          invariant 0 <= j <= |page|
          invariant Content == Merged(before + page[..j], parse, uriBase) && Readable(before + page[..j], parse)
        {
          MergedStep(before, page, j, parse, uriBase);
          if Raises(page[j], parse) {
            FlatAt(pages, i, j);
            assert RaisesFirstAt(Flat(pages), parse, |before| + j);
            return false;
          }
          ReadObject(page[j]);
          j := j + 1;
        }
        assert page[..j] == page;
        i := i + 1;
      }
      assert pages[..i] == pages;
      return true;
    }

    method JudgeEntry(name: string, e: Entry, limit: nat, before: Tally) returns (entry: Entry, t: Tally)
      ensures entry == Judged(name, e, limit, parse)
      ensures t == Plus(before, VerdictOf(name, e, limit, parse))
    {
      entry, t := e, before;
      match parse(e.manifest) {
        case Malformed =>
        case Incomplete =>
          t := t.(missingJson := t.missingJson + 1);
          entry := entry.(valid := false);
        case Complete(f) =>
          entry := entry.(timestamp := f.timestamp);
          if entry.timestamp > limit {
            entry := entry.(compatible := f.compatible, revision := f.revision, image := f.image);
            if name + "-upgrade.bin" != entry.image {
              entry := entry.(valid := false);
              t := t.(badFormat := t.badFormat + 1);
            } else {
              t := t.(accepted := t.accepted + 1);
              entry := entry.(valid := true);
            }
          } else {
            t := t.(rejected := t.rejected + 1);
            entry := entry.(valid := false);
          }
      }
    }

    /** Judges every entry in place and counts the verdicts. */
    method ComputeManifest(now: nat, maxAge: nat) returns (t: Tally)
      modifies this
      ensures Content == AllJudged(old(Content), Limit(now, maxAge), parse)
      ensures t == TallyOf(old(Content), Limit(now, maxAge), parse)
      ensures maxAge <= now < U64 ==>
                forall n :: n in old(Content) ==>
                              n in Content && JudgedByItsManifest(n, old(Content)[n], Content[n], now, maxAge, parse)
    {
      hide TallyOf, Limit, Judged, VerdictOf, Plus, Settled, HalfJudged;
      ghost var b := Content;
      var limit := Limit(now, maxAge);
      t := Tally(0, 0, 0, 0);
      var pending := Content.Keys;
      NothingTallied(limit, parse);
      NothingSettled(b, limit, parse);
      while pending != {}
        invariant pending <= b.Keys
        invariant Content == HalfJudged(b, pending, limit, parse)
        invariant t == TallyOf(Settled(b, pending), limit, parse)
        decreases |pending|
      {
        var name :| name in pending;
        SettleOne(b, pending, name, limit, parse);
        var entry;
        entry, t := JudgeEntry(name, Content[name], limit, t);
        Content := Content[name := entry];
        pending := pending - {name};
      }
      AllSettled(b, limit, parse);
      if maxAge <= now < U64 {
        forall n | n in b ensures JudgedByItsManifest(n, b[n], Content[n], now, maxAge, parse) {
          JudgementIsByManifest(n, b[n], now, maxAge, parse);
        }
      }
    }
  }

  /** What a judgement makes of an entry: it is valid when its manifest is complete, younger than the
      greatest age and names the image after the release, and then it carries what the manifest says; what
      the listing said about the image stays. An entry whose manifest is no JSON stays as it is. */
  ghost predicate JudgedByItsManifest(n: string, before: Entry, after: Entry, now: nat, maxAge: nat,
                                      parse: string -> Doc)
  {
    after.s3Name == before.s3Name && after.manifest == before.manifest && after.uri == before.uri &&
    after.s3TimeStamp == before.s3TimeStamp && after.s3Size == before.s3Size &&
    match parse(before.manifest)
    case Malformed => after == before
    case Incomplete => !after.valid
    case Complete(f) =>
      (after.valid <==> f.timestamp + maxAge > now && f.image == n + "-upgrade.bin") &&
      after.timestamp == f.timestamp &&
      (f.timestamp + maxAge > now ==>
         after.compatible == f.compatible && after.revision == f.revision && after.image == f.image) &&
      (f.timestamp + maxAge <= now ==>
         after.compatible == before.compatible && after.revision == before.revision && after.image == before.image)
  }

  lemma JudgementIsByManifest(n: string, e: Entry, now: nat, maxAge: nat, parse: string -> Doc)
    requires maxAge <= now < U64
    ensures JudgedByItsManifest(n, e, Judged(n, e, Limit(now, maxAge), parse), now, maxAge, parse)
  {
  }

  /** Each count is the number of entries with a manifest of its kind. */
  lemma CountsAreByManifest(b: Bucket, now: nat, maxAge: nat, parse: string -> Doc)
    requires maxAge <= now < U64
    ensures var t := TallyOf(b, Limit(now, maxAge), parse);
            t.missingJson == |set n | n in b && parse(b[n].manifest).Incomplete?| &&
            t.rejected == |set n | n in b && parse(b[n].manifest).Complete? &&
                                   parse(b[n].manifest).fields.timestamp + maxAge <= now| &&
            t.badFormat == |set n | n in b && parse(b[n].manifest).Complete? &&
                                    parse(b[n].manifest).fields.timestamp + maxAge > now &&
                                    parse(b[n].manifest).fields.image != n + "-upgrade.bin"| &&
            t.accepted == |set n | n in b && parse(b[n].manifest).Complete? &&
                                   parse(b[n].manifest).fields.timestamp + maxAge > now &&
                                   parse(b[n].manifest).fields.image == n + "-upgrade.bin"|
  {
    var limit := Limit(now, maxAge);
    assert WithVerdict(b, limit, parse, MissingJson) == set n | n in b && parse(b[n].manifest).Incomplete?;
    assert WithVerdict(b, limit, parse, TooOld) ==
           set n | n in b && parse(b[n].manifest).Complete? && parse(b[n].manifest).fields.timestamp + maxAge <= now;
    assert WithVerdict(b, limit, parse, BadFormat) ==
           set n | n in b && parse(b[n].manifest).Complete? && parse(b[n].manifest).fields.timestamp + maxAge > now &&
                   parse(b[n].manifest).fields.image != n + "-upgrade.bin";
    assert WithVerdict(b, limit, parse, Accepted) ==
           set n | n in b && parse(b[n].manifest).Complete? && parse(b[n].manifest).fields.timestamp + maxAge > now &&
                   parse(b[n].manifest).fields.image == n + "-upgrade.bin";
  }

  /** A greatest age that reaches behind the start of the clock wraps the limit around: nothing whose time
      stamp is a real time is young enough. */
  lemma AgeBeyondTheClock(now: nat, maxAge: nat)
    requires now < maxAge < U64
    ensures Limit(now, maxAge) == U64 - (maxAge - now)
  {
  }

  /** The entries that are no longer pending. */
  function Settled(b: Bucket, pending: set<string>): Bucket
  {
    map n | n in b && n !in pending :: b[n]
  }

  /** The bucket with those entries judged. */
  function HalfJudged(b: Bucket, pending: set<string>, limit: nat, parse: string -> Doc): Bucket
  {
    map n | n in b :: if n in pending then b[n] else Judged(n, b[n], limit, parse)
  }

  lemma NothingSettled(b: Bucket, limit: nat, parse: string -> Doc)
    ensures Settled(b, b.Keys) == map[] && HalfJudged(b, b.Keys, limit, parse) == b
  {
    hide Judged;
  }

  lemma AllSettled(b: Bucket, limit: nat, parse: string -> Doc)
    ensures Settled(b, {}) == b && HalfJudged(b, {}, limit, parse) == AllJudged(b, limit, parse)
  {
    hide Judged;
  }

  lemma SettleOne(b: Bucket, pending: set<string>, name: string, limit: nat, parse: string -> Doc)
    requires name in pending && pending <= b.Keys
    ensures var half := HalfJudged(b, pending, limit, parse);
            name in half && half[name] == b[name] &&
            HalfJudged(b, pending - {name}, limit, parse) == half[name := Judged(name, b[name], limit, parse)]
    ensures TallyOf(Settled(b, pending - {name}), limit, parse) ==
            Plus(TallyOf(Settled(b, pending), limit, parse), VerdictOf(name, b[name], limit, parse))
  {
    hide TallyOf, Judged, VerdictOf, Plus;
    assert Settled(b, pending - {name}) == Settled(b, pending)[name := b[name]];
    VerdictsStep(Settled(b, pending), name, b[name], limit, parse);
  }

  lemma MergedNothing(parse: string -> Doc, uriBase: string)
    ensures Merged([], parse, uriBase) == map[]
  {
  }

  lemma FlatStep(pages: seq<seq<S3Object>>, i: nat)
    requires i < |pages|
    ensures Flat(pages[..i + 1]) == Flat(pages[..i]) + pages[i]
  {
    assert pages[..i + 1][..i] == pages[..i];
  }

  lemma MergedStep(before: seq<S3Object>, page: seq<S3Object>, j: nat, parse: string -> Doc, uriBase: string)
    requires j < |page|
    ensures Merged(before + page[..j + 1], parse, uriBase) ==
            Put(Merged(before + page[..j], parse, uriBase), page[j], parse, uriBase)
    ensures Readable(before + page[..j + 1], parse) <==> Readable(before + page[..j], parse) && !Raises(page[j], parse)
  {
    var all := before + page[..j + 1];
    assert all[..|all| - 1] == before + page[..j] && all[|all| - 1] == page[j];
    assert all == (before + page[..j]) + [page[j]];
  }

  lemma {:induction false} FlatAt(pages: seq<seq<S3Object>>, i: nat, j: nat)
    requires i < |pages| && j < |pages[i]|
    ensures var k := |Flat(pages[..i])| + j;
            k < |Flat(pages)| && Flat(pages)[k] == pages[i][j] && Flat(pages)[..k] == Flat(pages[..i]) + pages[i][..j]
  {
    var front := pages[..|pages| - 1];
    if i < |pages| - 1 {
      FlatAt(front, i, j);
      assert front[..i] == pages[..i];
    }
  }

  lemma NothingTallied(limit: nat, parse: string -> Doc)
    ensures TallyOf(map[], limit, parse) == Tally(0, 0, 0, 0)
  {
  }

  lemma VerdictStep(b: Bucket, name: string, e: Entry, limit: nat, parse: string -> Doc, v: Verdict)
    requires name !in b
    ensures |WithVerdict(b[name := e], limit, parse, v)| ==
            |WithVerdict(b, limit, parse, v)| + if VerdictOf(name, e, limit, parse) == v then 1 else 0
  {
    hide VerdictOf;
    var s, t := WithVerdict(b, limit, parse, v), WithVerdict(b[name := e], limit, parse, v);
    assert t == if VerdictOf(name, e, limit, parse) == v then s + {name} else s;
  }

  lemma VerdictsStep(b: Bucket, name: string, e: Entry, limit: nat, parse: string -> Doc)
    requires name !in b
    ensures TallyOf(b[name := e], limit, parse) == Plus(TallyOf(b, limit, parse), VerdictOf(name, e, limit, parse))
  {
    hide VerdictOf, WithVerdict;
    VerdictStep(b, name, e, limit, parse, Accepted);
    VerdictStep(b, name, e, limit, parse, TooOld);
    VerdictStep(b, name, e, limit, parse, BadFormat);
    VerdictStep(b, name, e, limit, parse, MissingJson);
  }

  // ----- the merged entry of a release -----

  function LastJson(objs: seq<S3Object>, parse: string -> Doc, r: string): (o: Option<S3Object>)
    ensures o.Some? ==> o.value in objs && IsJson(o.value, parse, r)
    ensures o.None? ==> forall x :: x in objs ==> !IsJson(x, parse, r)
  {
    if objs == [] then None
    else if IsJson(objs[|objs| - 1], parse, r) then Some(objs[|objs| - 1])
    else LastJson(objs[..|objs| - 1], parse, r)
  }

  function LastBin(objs: seq<S3Object>, r: string): (o: Option<S3Object>)
    ensures o.Some? ==> o.value in objs && IsBin(o.value, r)
    ensures o.None? ==> forall x :: x in objs ==> !IsBin(x, r)
  {
    if objs == [] then None
    else if IsBin(objs[|objs| - 1], r) then Some(objs[|objs| - 1])
    else LastBin(objs[..|objs| - 1], r)
  }

  /** Some object of the release comes before one of its images. */
  predicate NamedByBin(objs: seq<S3Object>, parse: string -> Doc, r: string)
  {
    objs != [] &&
    (NamedByBin(objs[..|objs| - 1], parse, r) ||
     (IsBin(objs[|objs| - 1], r) &&
      (LastJson(objs[..|objs| - 1], parse, r).Some? || LastBin(objs[..|objs| - 1], r).Some?)))
  }

  /** The entry of a release, from its last complete manifest and its last image. */
  function Expected(objs: seq<S3Object>, parse: string -> Doc, uriBase: string, r: string): Option<Entry>
  {
    var j, b := LastJson(objs, parse, r), LastBin(objs, r);
    if j.None? && b.None? then None
    else
      var e := if j.Some? then WithJson(BLANK, j.value, DocOf(j.value, parse).fields) else BLANK;
      var f := if b.Some? then WithBin(e, b.value, uriBase) else e;
      Some(f.(s3Name := if NamedByBin(objs, parse, r) then r else ""))
  }

  lemma ExpectedStep(objs: seq<S3Object>, parse: string -> Doc, uriBase: string, r: string)
    requires objs != []
    ensures var front, o := objs[..|objs| - 1], objs[|objs| - 1];
            var e := Expected(front, parse, uriBase, r);
            Expected(objs, parse, uriBase, r) ==
            if IsJson(o, parse, r) then Some(WithJson(if e.Some? then e.value else BLANK, o, DocOf(o, parse).fields))
            else if IsBin(o, r) then
              Some(if e.Some? then WithBin(e.value, o, uriBase).(s3Name := r) else WithBin(BLANK, o, uriBase))
            else e
  {
    var front, o := objs[..|objs| - 1], objs[|objs| - 1];
    NamedNeedsBin(front, parse, r);
    NamedNeedsBin(objs, parse, r);
  }

  lemma {:induction false} NamedNeedsBin(objs: seq<S3Object>, parse: string -> Doc, r: string)
    ensures NamedByBin(objs, parse, r) ==> LastBin(objs, r).Some?
  {
    if objs != [] {
      NamedNeedsBin(objs[..|objs| - 1], parse, r);
    }
  }

  lemma PutAt(b: Bucket, o: S3Object, parse: string -> Doc, uriBase: string, r: string)
    ensures var e := Lookup(b, r);
            Lookup(Put(b, o, parse, uriBase), r) ==
            if IsJson(o, parse, r) then Some(WithJson(if e.Some? then e.value else BLANK, o, DocOf(o, parse).fields))
            else if IsBin(o, r) then
              Some(if e.Some? then WithBin(e.value, o, uriBase).(s3Name := r) else WithBin(BLANK, o, uriBase))
            else e
  {
  }

  /** Whatever the listing, each release's entry is the one its last complete manifest and its last
      image make; the name is set exactly when an image finds an entry. */
  lemma {:induction false} MergedIsLast(objs: seq<S3Object>, parse: string -> Doc, uriBase: string, r: string)
    ensures Lookup(Merged(objs, parse, uriBase), r) == Expected(objs, parse, uriBase, r)
  {
    if objs != [] {
      var front, o := objs[..|objs| - 1], objs[|objs| - 1];
      MergedIsLast(front, parse, uriBase, r);
      PutAt(Merged(front, parse, uriBase), o, parse, uriBase, r);
      ExpectedStep(objs, parse, uriBase, r);
      hide Put, Expected;
    }
  }

  /** A complete manifest and an image named after it meet in one entry, which has the manifest's text
      and fields and the image's date, size and place. */
  lemma ImageMeetsItsManifest(objs: seq<S3Object>, parse: string -> Doc, uriBase: string, r: string, j: S3Object,
                              b: S3Object)
    requires OnePerRelease(objs, parse) && j in objs && b in objs
    requires j.ext == "json" && j.base == r && j.body.Some? && parse(j.body.value).Complete?
    requires b.ext == "bin" && b.base == r + "-upgrade"
    ensures var m, f := Merged(objs, parse, uriBase), parse(j.body.value).fields;
            r in m && !m[r].valid && m[r].manifest == j.body.value && m[r].compatible == f.compatible &&
            m[r].revision == f.revision && m[r].image == f.image && m[r].timestamp == f.timestamp &&
            m[r].s3TimeStamp == b.modifiedMillis / 1000 && m[r].s3Size == b.size &&
            m[r].uri == uriBase + "/" + r + "-upgrade.bin"
  {
    assert b.base[..|b.base| - 8] == r;
    assert IsJson(j, parse, r) && IsBin(b, r);
    MergedIsLast(objs, parse, uriBase, r);
    assert uriBase + "/" + (r + "-upgrade" + "." + "bin") == uriBase + "/" + r + "-upgrade.bin";
    assert LastJson(objs, parse, r) == Some(j) && LastBin(objs, r) == Some(b);
    hide Merged, LastJson, LastBin;
  }

  /** Every image has its entry: under its base name less the last eight characters, whatever they are, or
      under the whole of a name that has not so many. */
  lemma EveryImageHasItsEntry(objs: seq<S3Object>, parse: string -> Doc, uriBase: string, b: S3Object)
    requires b in objs && b.ext == "bin"
    ensures |b.base| < 8 ==> b.base in Merged(objs, parse, uriBase)
    ensures forall r: string, cut: string :: b.base == r + cut && |cut| == 8 ==> r in Merged(objs, parse, uriBase)
  {
    if |b.base| < 8 {
      assert IsBin(b, b.base);
      MergedIsLast(objs, parse, uriBase, b.base);
    }
    forall r: string, cut: string | b.base == r + cut && |cut| == 8 ensures r in Merged(objs, parse, uriBase) {
      assert b.base[..|b.base| - 8] == r;
      assert IsBin(b, r);
      MergedIsLast(objs, parse, uriBase, r);
    }
    hide Merged;
  }

  /** An entry has a manifest or an image in the listing; without one of them the fields that would come
      from it are blank. */
  lemma EntriesComeFromObjects(objs: seq<S3Object>, parse: string -> Doc, uriBase: string, r: string)
    requires r in Merged(objs, parse, uriBase)
    ensures var e := Merged(objs, parse, uriBase)[r];
            (!(exists j :: j in objs && IsJson(j, parse, r)) ==>
               e.manifest == "" && e.compatible == "" && e.revision == "" && e.image == "" && e.timestamp == 0) &&
            (!(exists b :: b in objs && IsBin(b, r)) ==> e.uri == "" && e.s3TimeStamp == 0 && e.s3Size == 0)
  {
    MergedIsLast(objs, parse, uriBase, r);
    hide Merged, LastJson, LastBin;
  }

  // ----- order of the listing -----

  /** At most one complete manifest and one image per release. */
  ghost predicate OnePerRelease(objs: seq<S3Object>, parse: string -> Doc)
  {
    forall x, y, r ::
      x in objs && y in objs && ((IsJson(x, parse, r) && IsJson(y, parse, r)) || (IsBin(x, r) && IsBin(y, r))) ==>
        x == y
  }

  ghost predicate SameObjects(a: seq<S3Object>, b: seq<S3Object>)
  {
    forall o :: o in a <==> o in b
  }

  function Unnamed(e: Entry): Entry { e.(s3Name := "") }

  function AllUnnamed(b: Bucket): Bucket
  {
    map n | n in b :: Unnamed(b[n])
  }

  lemma SameExpected(a: seq<S3Object>, b: seq<S3Object>, parse: string -> Doc, r: string)
    requires SameObjects(a, b) && OnePerRelease(a, parse)
    ensures LastJson(a, parse, r) == LastJson(b, parse, r) && LastBin(a, r) == LastBin(b, r)
  {
  }

  /** Two listings of the same objects, in whatever order and pages, merge to the same entries up to
      the name field. */
  lemma ListingOrderDoesNotMatter(p: seq<seq<S3Object>>, q: seq<seq<S3Object>>, parse: string -> Doc, uriBase: string)
    requires SameObjects(Flat(p), Flat(q)) && OnePerRelease(Flat(p), parse)
    ensures AllUnnamed(Merged(Flat(p), parse, uriBase)) == AllUnnamed(Merged(Flat(q), parse, uriBase))
  {
    var m, n := Merged(Flat(p), parse, uriBase), Merged(Flat(q), parse, uriBase);
    forall r: string
      ensures r in m <==> r in n
      ensures r in m ==> Unnamed(m[r]) == Unnamed(n[r])
    {
      SameExpected(Flat(p), Flat(q), parse, r);
      MergedIsLast(Flat(p), parse, uriBase, r);
      MergedIsLast(Flat(q), parse, uriBase, r);
    }
  }

  // ----- exactly when the order does not matter -----

  /** The part of an entry that a manifest makes, and the part that an image makes. */
  function JsonPart(o: S3Object, parse: string -> Doc): Entry
    requires o.body.Some? && DocOf(o, parse).Complete?
  {
    WithJson(BLANK, o, DocOf(o, parse).fields)
  }

  function BinPart(o: S3Object, uriBase: string): Entry
  {
    WithBin(BLANK, o, uriBase)
  }

  /** All complete manifests of a release agree, and all its images do. */
  ghost predicate PartsAgree(objs: seq<S3Object>, parse: string -> Doc, uriBase: string)
  {
    (forall x, y, r :: x in objs && y in objs && IsJson(x, parse, r) && IsJson(y, parse, r) ==>
                         JsonPart(x, parse) == JsonPart(y, parse)) &&
    forall x, y, r :: x in objs && y in objs && IsBin(x, r) && IsBin(y, r) ==>
                        BinPart(x, uriBase) == BinPart(y, uriBase)
  }

  /** The entry of a release up to its name, from the parts of its last manifest and its last image. */
  function Parts(j: Option<S3Object>, b: Option<S3Object>, parse: string -> Doc, uriBase: string): Option<Entry>
    requires j.Some? ==> j.value.body.Some? && DocOf(j.value, parse).Complete?
  {
    if j.None? && b.None? then None
    else
      var e := if j.Some? then JsonPart(j.value, parse) else BLANK;
      var i := if b.Some? then BinPart(b.value, uriBase) else BLANK;
      Some(e.(s3TimeStamp := i.s3TimeStamp, s3Size := i.s3Size, uri := i.uri))
  }

  function UnnamedAt(b: Bucket, r: string): Option<Entry>
  {
    if r in b then Some(Unnamed(b[r])) else None
  }

  lemma MergedParts(objs: seq<S3Object>, parse: string -> Doc, uriBase: string, r: string)
    ensures UnnamedAt(Merged(objs, parse, uriBase), r) ==
            Parts(LastJson(objs, parse, r), LastBin(objs, r), parse, uriBase)
  {
    MergedIsLast(objs, parse, uriBase, r);
  }

  lemma SameUnnamed(m: Bucket, n: Bucket)
    ensures AllUnnamed(m) == AllUnnamed(n) <==> forall r: string :: UnnamedAt(m, r) == UnnamedAt(n, r)
  {
    if forall r: string :: UnnamedAt(m, r) == UnnamedAt(n, r) {
      forall r: string
        ensures r in m <==> r in n
        ensures r in m ==> Unnamed(m[r]) == Unnamed(n[r])
      {
        assert UnnamedAt(m, r) == UnnamedAt(n, r);
      }
    }
    if AllUnnamed(m) == AllUnnamed(n) {
      forall r: string ensures UnnamedAt(m, r) == UnnamedAt(n, r) {
        assert r in AllUnnamed(m) <==> r in m;
        assert r in AllUnnamed(n) <==> r in n;
        assert r in m ==> AllUnnamed(m)[r] == Unnamed(m[r]) && AllUnnamed(n)[r] == Unnamed(n[r]);
      }
    }
  }

  ghost predicate Arrangement(a: seq<S3Object>, b: seq<S3Object>)
  {
    multiset(a) == multiset(b)
  }

  lemma ArrangementHasSameObjects(a: seq<S3Object>, b: seq<S3Object>)
    requires Arrangement(a, b)
    ensures SameObjects(a, b)
  {
    forall o ensures o in a <==> o in b {
      assert o in a <==> o in multiset(a);
      assert o in b <==> o in multiset(b);
    }
  }

  lemma MovedLast(objs: seq<S3Object>, x: S3Object) returns (b: seq<S3Object>)
    requires x in objs
    ensures Arrangement(objs, b) && b != [] && b[|b| - 1] == x
  {
    var i :| 0 <= i < |objs| && objs[i] == x;
    assert objs == objs[..i] + [objs[i]] + objs[i + 1..];
    b := objs[..i] + objs[i + 1..] + [objs[i]];
  }

  lemma AgreeingPartsMergeAlike(a: seq<S3Object>, b: seq<S3Object>, parse: string -> Doc, uriBase: string)
    requires SameObjects(a, b) && PartsAgree(a, parse, uriBase)
    ensures AllUnnamed(Merged(a, parse, uriBase)) == AllUnnamed(Merged(b, parse, uriBase))
  {
    forall r: string ensures UnnamedAt(Merged(a, parse, uriBase), r) == UnnamedAt(Merged(b, parse, uriBase), r) {
      MergedParts(a, parse, uriBase, r);
      MergedParts(b, parse, uriBase, r);
      SameParts(a, b, parse, uriBase, r);
    }
    SameUnnamed(Merged(a, parse, uriBase), Merged(b, parse, uriBase));
  }

  lemma SameParts(a: seq<S3Object>, b: seq<S3Object>, parse: string -> Doc, uriBase: string, r: string)
    requires SameObjects(a, b) && PartsAgree(a, parse, uriBase)
    ensures Parts(LastJson(a, parse, r), LastBin(a, r), parse, uriBase) ==
            Parts(LastJson(b, parse, r), LastBin(b, r), parse, uriBase)
  {
    hide JsonPart, BinPart, LastJson, LastBin;
    var i, j, k, l := LastJson(a, parse, r), LastJson(b, parse, r), LastBin(a, r), LastBin(b, r);
    assert i.Some? <==> j.Some?;
    assert k.Some? <==> l.Some?;
  }

  /** Two objects that make different parts of one release: each wins when it comes last. */
  lemma DisagreeingPartsMergeDifferently(objs: seq<S3Object>, parse: string -> Doc, uriBase: string)
    returns (p: seq<S3Object>, q: seq<S3Object>)
    requires !PartsAgree(objs, parse, uriBase)
    ensures Arrangement(objs, p) && Arrangement(objs, q)
    ensures AllUnnamed(Merged(p, parse, uriBase)) != AllUnnamed(Merged(q, parse, uriBase))
  {
    var x, y, r: string;
    if x', y', r' :| x' in objs && y' in objs && IsJson(x', parse, r') && IsJson(y', parse, r') &&
                     JsonPart(x', parse) != JsonPart(y', parse)
    {
      x, y, r := x', y', r';
    } else {
      x, y, r :| x in objs && y in objs && IsBin(x, r) && IsBin(y, r) && BinPart(x, uriBase) != BinPart(y, uriBase);
    }
    p := MovedLast(objs, x);
    q := MovedLast(objs, y);
    LastIsLast(p, x, parse, r);
    LastIsLast(q, y, parse, r);
    hide Merged, LastJson, LastBin;
    MergedParts(p, parse, uriBase, r);
    MergedParts(q, parse, uriBase, r);
    SameUnnamed(Merged(p, parse, uriBase), Merged(q, parse, uriBase));
  }

  lemma LastIsLast(objs: seq<S3Object>, x: S3Object, parse: string -> Doc, r: string)
    requires objs != [] && objs[|objs| - 1] == x
    ensures IsJson(x, parse, r) ==> LastJson(objs, parse, r) == Some(x)
    ensures IsBin(x, r) ==> LastBin(objs, r) == Some(x)
  {
  }

  /** Every arrangement of a listing merges to the same entries up to the name field exactly when all
      complete manifests of a release agree and all its images do. */
  lemma ListingOrderMattersExactly(objs: seq<S3Object>, parse: string -> Doc, uriBase: string)
    ensures (forall b: seq<S3Object> :: Arrangement(objs, b) ==>
               AllUnnamed(Merged(b, parse, uriBase)) == AllUnnamed(Merged(objs, parse, uriBase))) <==>
            PartsAgree(objs, parse, uriBase)
  {
    hide PartsAgree, Merged, AllUnnamed;
    if PartsAgree(objs, parse, uriBase) {
      forall b: seq<S3Object> | Arrangement(objs, b)
        ensures AllUnnamed(Merged(b, parse, uriBase)) == AllUnnamed(Merged(objs, parse, uriBase))
      {
        ArrangementHasSameObjects(objs, b);
        AgreeingPartsMergeAlike(objs, b, parse, uriBase);
      }
    } else {
      var p, q := DisagreeingPartsMergeDifferently(objs, parse, uriBase);
    }
  }

  // ----- judgement of merged listings -----

  lemma {:induction false} MergedIsNotYetValid(objs: seq<S3Object>, parse: string -> Doc, uriBase: string)
    ensures forall n :: n in Merged(objs, parse, uriBase) ==> !Merged(objs, parse, uriBase)[n].valid
  {
    if objs != [] {
      MergedIsNotYetValid(objs[..|objs| - 1], parse, uriBase);
    }
  }

  function ValidOnes(b: Bucket): set<string>
  {
    set n | n in b && b[n].valid
  }

  lemma JudgedIsValid(b: Bucket, limit: nat, parse: string -> Doc)
    requires forall n :: n in b ==> !b[n].valid
    ensures ValidOnes(AllJudged(b, limit, parse)) == WithVerdict(b, limit, parse, Accepted)
  {
  }

  lemma SizesAddUp(a: set<string>, b: set<string>, c: set<string>, d: set<string>, e: set<string>)
    requires a !! b !! c !! d !! e
    ensures |a + b + c + d + e| == |a| + |b| + |c| + |d| + |e|
  {
  }

  lemma VerdictsPartition(b: Bucket, limit: nat, parse: string -> Doc)
    ensures |WithVerdict(b, limit, parse, Accepted)| + |WithVerdict(b, limit, parse, TooOld)| +
            |WithVerdict(b, limit, parse, BadFormat)| + |WithVerdict(b, limit, parse, MissingJson)| +
            |WithVerdict(b, limit, parse, Exception)| == |b|
  {
    hide VerdictOf;
    var a, t := WithVerdict(b, limit, parse, Accepted), WithVerdict(b, limit, parse, TooOld);
    var f, m := WithVerdict(b, limit, parse, BadFormat), WithVerdict(b, limit, parse, MissingJson);
    var x := WithVerdict(b, limit, parse, Exception);
    assert a + t + f + m + x == b.Keys;
    SizesAddUp(a, t, f, m, x);
  }

  /** After a complete listing exactly the accepted entries are valid; the four counts and the entries
      whose manifest does not parse make up the whole bucket. */
  lemma AcceptedIsValid(b: Bucket, limit: nat, parse: string -> Doc)
    requires forall n :: n in b ==> !b[n].valid
    ensures ValidOnes(AllJudged(b, limit, parse)) == WithVerdict(b, limit, parse, Accepted)
    ensures var t := TallyOf(b, limit, parse);
            t.accepted == |ValidOnes(AllJudged(b, limit, parse))| &&
            t.accepted + t.rejected + t.badFormat + t.missingJson + |WithVerdict(b, limit, parse, Exception)| == |b|
  {
    JudgedIsValid(b, limit, parse);
    VerdictsPartition(b, limit, parse);
    hide WithVerdict, ValidOnes, AllJudged;
  }

  lemma JudgedUnnamed(b: Bucket, limit: nat, parse: string -> Doc)
    ensures AllUnnamed(AllJudged(b, limit, parse)) == AllJudged(AllUnnamed(b), limit, parse)
    ensures forall v :: WithVerdict(AllUnnamed(b), limit, parse, v) == WithVerdict(b, limit, parse, v)
    ensures ValidOnes(AllUnnamed(b)) == ValidOnes(b)
  {
    forall n | n in b
      ensures Unnamed(Judged(n, b[n], limit, parse)) == Judged(n, Unnamed(b[n]), limit, parse)
      ensures VerdictOf(n, Unnamed(b[n]), limit, parse) == VerdictOf(n, b[n], limit, parse)
      ensures Unnamed(b[n]).valid == b[n].valid
    {
    }
    hide Judged, Unnamed, VerdictOf;
  }

  /** Hence the order of the listing decides neither which entries are valid nor any count. */
  lemma JudgementDoesNotDependOnOrder(p: seq<seq<S3Object>>, q: seq<seq<S3Object>>, parse: string -> Doc,
                                      uriBase: string, limit: nat)
    requires SameObjects(Flat(p), Flat(q)) && OnePerRelease(Flat(p), parse)
    ensures var m, n := Merged(Flat(p), parse, uriBase), Merged(Flat(q), parse, uriBase);
            ValidOnes(AllJudged(m, limit, parse)) == ValidOnes(AllJudged(n, limit, parse)) &&
            TallyOf(m, limit, parse) == TallyOf(n, limit, parse) &&
            TallyOf(m, limit, parse).accepted == |ValidOnes(AllJudged(m, limit, parse))|
  {
    var m, n := Merged(Flat(p), parse, uriBase), Merged(Flat(q), parse, uriBase);
    ListingOrderDoesNotMatter(p, q, parse, uriBase);
    JudgedUnnamed(m, limit, parse);
    JudgedUnnamed(n, limit, parse);
    MergedIsNotYetValid(Flat(p), parse, uriBase);
    AcceptedIsValid(m, limit, parse);
    MergedIsNotYetValid(Flat(q), parse, uriBase);
    AcceptedIsValid(n, limit, parse);
    hide Merged, Flat, AllJudged, WithVerdict, ValidOnes, AllUnnamed;
    assert forall v ::
        WithVerdict(AllUnnamed(m), limit, parse, v) == WithVerdict(m, limit, parse, v) &&
        WithVerdict(m, limit, parse, v) == WithVerdict(n, limit, parse, v);
  }
}
