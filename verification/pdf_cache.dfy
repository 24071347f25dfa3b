/** Watermark identities and cache keys of PDF exports. */
module PdfKeys {
  import opened Options
  import opened Text

  /** The two digests are abstract: `key` is the SHA-256 of a cache key, `mark` the truncated
      base64url digest that serves as watermark id. */
  datatype Hashes = Hashes(key: string -> string, mark: string -> string)

  datatype Watermark = Watermark(auditorSub: string, engagementId: string)

  function LeftStrip(s: string): string {
    if s != [] && IsSpace(s[0]) then LeftStrip(s[1..]) else s
  }

  function RightStrip(s: string): string {
    if s != [] && IsSpace(s[|s| - 1]) then RightStrip(s[..|s| - 1]) else s
  }

  /** A validated field: stripped, not blank, and free of the reserved '|'. */
  function Checked(v: string): Option<string> {
    var w := RightStrip(LeftStrip(v));
    if w == "" || '|' in w then None else Some(w)
  }

  /** The `WatermarkSpec` constructor; None stands for its validation error. */
  function MakeWatermark(auditorSub: string, engagementId: string): Option<Watermark> {
    if auditorSub == "" || engagementId == "" then None
    else
      match (Checked(auditorSub), Checked(engagementId))
      case (Some(a), Some(e)) => Some(Watermark(a, e))
      case _ => None
  }

  predicate WellFormed(w: Watermark) {
    w.auditorSub != "" && w.engagementId != "" && '|' !in w.auditorSub && '|' !in w.engagementId
  }

  lemma ValidatedIsWellFormed(auditorSub: string, engagementId: string)
    ensures var w := MakeWatermark(auditorSub, engagementId);
            w.Some? ==> WellFormed(w.value)
  {
  }

  predicate Blank(s: string) {
    forall i :: 0 <= i < |s| ==> IsSpace(s[i])
  }

  /** `v` is `w` with white space around it, and `w` neither begins nor ends with any. */
  ghost predicate Trims(v: string, w: string) {
    && w != "" && !IsSpace(w[0]) && !IsSpace(w[|w| - 1])
    && exists l, r :: Blank(l) && Blank(r) && v == l + w + r
  }

  lemma {:induction false} LeftStripped(l: string, x: string)
    requires Blank(l) && (x == "" || !IsSpace(x[0]))
    ensures LeftStrip(l + x) == x
  {
    if l == "" {
      assert l + x == x;
    } else {
      assert (l + x)[1..] == l[1..] + x;
      LeftStripped(l[1..], x);
    }
  }

  lemma {:induction false} RightStripped(x: string, r: string)
    requires Blank(r) && (x == "" || !IsSpace(x[|x| - 1]))
    ensures RightStrip(x + r) == x
  {
    if r == "" {
      assert x + r == x;
    } else {
      assert (x + r)[..|x + r| - 1] == x + r[..|r| - 1];
      RightStripped(x, r[..|r| - 1]);
    }
  }

  lemma {:induction false} LeftParts(s: string) returns (l: string)
    ensures Blank(l) && s == l + LeftStrip(s)
    ensures LeftStrip(s) == "" || !IsSpace(LeftStrip(s)[0])
  {
    l := "";
    if s != [] && IsSpace(s[0]) {
      l := LeftParts(s[1..]);
      l := [s[0]] + l;
    }
  }

  lemma {:induction false} RightParts(s: string) returns (r: string)
    ensures Blank(r) && s == RightStrip(s) + r
    ensures RightStrip(s) == "" || (!IsSpace(RightStrip(s)[|RightStrip(s)| - 1]) && RightStrip(s)[0] == s[0])
  {
    r := "";
    if s != [] && IsSpace(s[|s| - 1]) {
      r := RightParts(s[..|s| - 1]);
      r := r + [s[|s| - 1]];
    }
  }

  lemma StrippedTrims(v: string)
    ensures var w := RightStrip(LeftStrip(v)); w != "" ==> Trims(v, w)
  {
    hide LeftStrip, RightStrip;
    var w := RightStrip(LeftStrip(v));
    var l := LeftParts(v);
    var r := RightParts(LeftStrip(v));
    assert v == l + w + r;
  }

  lemma TrimmedIsStripped(v: string, w: string)
    requires Trims(v, w)
    ensures RightStrip(LeftStrip(v)) == w
  {
    hide LeftStrip, RightStrip;
    var l, r :| Blank(l) && Blank(r) && v == l + w + r;
    assert v == l + (w + r) && (w + r)[0] == w[0];
    LeftStripped(l, w + r);
    RightStripped(w, r);
  }

  lemma TrimmedIsNotEmpty(v: string, w: string)
    ensures Trims(v, w) ==> w != "" && v != ""
  {
  }

  /** A field is accepted with exactly its trimmed text, and refused exactly when that is empty or
      contains the reserved bar. */
  lemma CheckedExactly(v: string, w: string)
    ensures Checked(v) == Some(w) <==> Trims(v, w) && '|' !in w
  {
    hide LeftStrip, RightStrip, Trims;
    StrippedTrims(v);
    if Trims(v, w) {
      TrimmedIsStripped(v, w);
      TrimmedIsNotEmpty(v, w);
    }
  }

  /** So it is for both fields of a watermark. */
  lemma ValidatedExactly(auditorSub: string, engagementId: string, w: Watermark)
    ensures MakeWatermark(auditorSub, engagementId) == Some(w)
       <==> Trims(auditorSub, w.auditorSub) && Trims(engagementId, w.engagementId)
            && '|' !in w.auditorSub && '|' !in w.engagementId
  {
    hide Trims, LeftStrip, RightStrip;
    CheckedExactly(auditorSub, w.auditorSub);
    CheckedExactly(engagementId, w.engagementId);
    TrimmedIsNotEmpty(auditorSub, w.auditorSub);
    TrimmedIsNotEmpty(engagementId, w.engagementId);
  }

  function MarkPreimage(w: Watermark): string {
    w.auditorSub + ['|'] + w.engagementId
  }

  function WatermarkId(h: Hashes, w: Watermark): string {
    h.mark(MarkPreimage(w))
  }

  lemma MarkPreimageInjective(v: Watermark, w: Watermark)
    requires WellFormed(v) && WellFormed(w) && MarkPreimage(v) == MarkPreimage(w)
    ensures v == w
  {
    LeftUnique(v.auditorSub, v.engagementId, w.auditorSub, w.engagementId, '|');
  }

  /** Python's `value or default`. */
  function OrElse(value: Option<string>, default: string): string {
    if value.Some? && value.value != "" then value.value else default
  }

  function RawKey(component: string, documentId: string, role: string, mark: string, tag: string): string {
    component + [':'] + (documentId + [':'] + role + [':'] + mark + [':'] + tag)
  }

  /** The ':'-joined key determines all five fields, although the document id may itself contain
      colons: it is what is left between the first colon and the third last. */
  lemma RawKeyInjective(c1: string, d1: string, r1: string, m1: string, t1: string,
                        c2: string, d2: string, r2: string, m2: string, t2: string)
    requires ':' !in c1 && ':' !in r1 && ':' !in m1 && ':' !in t1
    requires ':' !in c2 && ':' !in r2 && ':' !in m2 && ':' !in t2
    ensures RawKey(c1, d1, r1, m1, t1) == RawKey(c2, d2, r2, m2, t2)
       <==> c1 == c2 && d1 == d2 && r1 == r2 && m1 == m2 && t1 == t2
  {
    if RawKey(c1, d1, r1, m1, t1) == RawKey(c2, d2, r2, m2, t2) {
      var x1, y1 := d1 + [':'] + r1, d2 + [':'] + r2;
      LeftUnique(c1, x1 + [':'] + m1 + [':'] + t1, c2, y1 + [':'] + m2 + [':'] + t2, ':');
      RightUnique(x1 + [':'] + m1, t1, y1 + [':'] + m2, t2, ':');
      RightUnique(x1, m1, y1, m2, ':');
      RightUnique(d1, r1, d2, r2, ':');
    }
  }

  /** What stands before and behind the last colon of a text. */
  function Front(s: string): string
    requires ':' in s
  {
    if s[|s| - 1] == ':' then s[..|s| - 1] else Front(s[..|s| - 1])
  }

  function Back(s: string): string
    requires ':' in s
  {
    if s[|s| - 1] == ':' then "" else Back(s[..|s| - 1]) + [s[|s| - 1]]
  }

  lemma {:induction false} LastColon(s: string)
    requires ':' in s
    ensures s == Front(s) + [':'] + Back(s) && ':' !in Back(s)
  {
    if s[|s| - 1] != ':' {
      LastColon(s[..|s| - 1]);
    }
  }

  /** The last three pieces of "role:mark:tag", and what is left in front of them. */
  datatype Pieces = Pieces(rest: string, role: string, mark: string, tag: string)

  function Take(r: string, m: string, t: string): Pieces
    requires ':' in t
  {
    var y := m + [':'] + Front(t);
    var z := r + [':'] + Front(y);
    Pieces(Front(z), Back(z), Back(y), Back(t))
  }

  /** A separable reading of a raw key: five fields that make it up, colons at most in the document. */
  predicate Reads(raw: string, c: string, d: string, r: string, m: string, t: string) {
    raw == RawKey(c, d, r, m, t) && ':' !in c && ':' !in r && ':' !in m && ':' !in t
  }

  /** Moving a colon-separated piece from one group to the next. */
  lemma Regroup(d: string, r: string, m: string, x: string, t: string)
    ensures d + [':'] + r + [':'] + m + [':'] + (x + [':'] + t) == d + [':'] + r + [':'] + (m + [':'] + x) + [':'] + t
    ensures d + [':'] + r + [':'] + (m + [':'] + x) + [':'] + t == d + [':'] + (r + [':'] + m) + [':'] + x + [':'] + t
  {
  }

  lemma RegroupFront(d: string, z: string, r: string, m: string, t: string)
    ensures d + [':'] + (z + [':'] + r) + [':'] + m + [':'] + t == (d + [':'] + z) + [':'] + r + [':'] + m + [':'] + t
  {
  }

  /** With colons in the tag the key reads differently from behind. */
  lemma ReadDifferently(c: string, d: string, r: string, m: string, t: string)
    requires ':' !in c && ':' !in r && ':' !in m && ':' in t
    ensures var p := Take(r, m, t);
            Reads(RawKey(c, d, r, m, t), c, d + [':'] + p.rest, p.role, p.mark, p.tag) && p.tag != t
  {
    hide Front, Back;
    var y := m + [':'] + Front(t);
    var z := r + [':'] + Front(y);
    LastColon(t);
    LastColon(y);
    LastColon(z);
    Regroup(d, r, m, Front(t), Back(t));
    Regroup(d, r, Front(y), Back(y), Back(t));
    RegroupFront(d, Front(z), Back(z), Back(y), Back(t));
  }

  /** With colon-free component, role and mark, the raw key has only one separable reading if and
      only if the tag contains no colon either. */
  lemma OneReadingExactly(c: string, d: string, r: string, m: string, t: string)
    requires ':' !in c && ':' !in r && ':' !in m
    ensures ':' !in t
       <==> forall c2, d2, r2, m2, t2 :: Reads(RawKey(c, d, r, m, t), c2, d2, r2, m2, t2) ==>
              c2 == c && d2 == d && r2 == r && m2 == m && t2 == t
  {
    if ':' in t {
      ReadDifferently(c, d, r, m, t);
    } else {
      forall c2, d2, r2, m2, t2 | Reads(RawKey(c, d, r, m, t), c2, d2, r2, m2, t2)
        ensures c2 == c && d2 == d && r2 == r && m2 == m && t2 == t
      {
        RawKeyInjective(c, d, r, m, t, c2, d2, r2, m2, t2);
      }
    }
  }

  /** The shape of a collision: role and mark can be moved from the document into the tag. */
  lemma ColonInTagCollides(c: string, d: string, r: string, m: string, x: string, y: string)
    ensures RawKey(c, d, r, m, x + [':'] + r + [':'] + m + [':'] + y)
         == RawKey(c, d + [':'] + r + [':'] + m + [':'] + x, r, m, y)
  {
    var mid := [':'] + r + [':'] + m + [':'];
    assert d + mid + (x + mid + y) == (d + mid + x) + mid + y;
    assert d + [':'] + r + [':'] + m + [':'] + (x + [':'] + r + [':'] + m + [':'] + y) == d + mid + (x + mid + y);
    assert d + [':'] + r + [':'] + m + [':'] + x + [':'] + r + [':'] + m + [':'] + y == (d + mid + x) + mid + y;
  }
}

/** The export pipeline around the cache, with rendering and signing as inputs.

    An export that misses the cache suspends while its page is rendered, so a run is a sequence of
    lookups (`Ask`), completions (`Finish`) and evictions in any order: any number of exports may
    have looked up before any of them stores. */
module PdfExport {
  import opened Options
  import opened PdfKeys

  type Pdf = seq<bv8>

  datatype Request = Request(
    template: string,
    title: string,
    userIdentity: string,
    role: string,
    watermark: Option<Watermark>,
    requirePades: bool,
    documentId: Option<string>,
    component: string,
    etag: Option<string>)

  /** What rendering and byte-range signing would yield for this call; None is a failure. */
  datatype Work = Work(rendered: Option<Pdf>, resigned: Option<Pdf>)

  datatype Answer = Invalid | Hit(pdf: Pdf) | Miss | Generated(pdf: Pdf) | Failed | Evicted

  datatype Op =
    | Ask(request: Request)
    | Finish(request: Request, work: Work)
    | Evict(keys: set<string>)  // expiry, LRU eviction or invalidation of any entries

  type Cache = map<string, Pdf>

  /** The argument checks: auditors must bring a watermark, nobody else may. */
  predicate Legal(r: Request) {
    && r.template != "" && r.title != "" && r.userIdentity != "" && r.role != ""
    && (r.role == "auditor" <==> r.watermark.Some?)
  }

  predicate HasId(r: Request) {
    r.documentId.Some? && r.documentId.value != ""
  }

  /** Whether these bytes are what the request asks for: signed over their byte range, for which it takes
      a signing client and a document id, if it demands that, and just as rendered if it does not. */
  predicate Carries(hasSigner: bool, r: Request, w: Work, pdf: Pdf) {
    && w.rendered.Some?
    && if r.requirePades then hasSigner && HasId(r) && w.resigned == Some(pdf) else w.rendered == Some(pdf)
  }

  function Document(r: Request): string {
    OrElse(r.documentId, r.template)
  }

  function Mark(h: Hashes, r: Request): string {
    if r.watermark.Some? then OrElse(Some(WatermarkId(h, r.watermark.value)), "none") else "none"
  }

  function Tag(r: Request): string {
    OrElse(r.etag, "noetag")
  }

  function Raw(h: Hashes, r: Request): string {
    RawKey(r.component, Document(r), r.role, Mark(h, r), Tag(r))
  }

  function Key(h: Hashes, r: Request): string {
    h.key(Raw(h, r))
  }

  /** The bytes a cache miss produces: rendered, and signed again when that is required, which
      needs a signing client and a document id. */
  function Produced(hasSigner: bool, r: Request, w: Work): Option<Pdf> {
    if w.rendered.None? then None
    else if !r.requirePades then w.rendered
    else if !hasSigner || OrElse(r.documentId, "") == "" then None
    else w.resigned
  }

  function Reply(h: Hashes, hasSigner: bool, c: Cache, op: Op): Answer {
    match op
    case Evict(_) => Evicted
    case Ask(r) =>
      if !Legal(r) then Invalid
      else if Key(h, r) in c then Hit(c[Key(h, r)])
      else Miss
    case Finish(r, w) =>
      if !Legal(r) then Invalid
      else if Produced(hasSigner, r, w).None? then Failed
      else Generated(Produced(hasSigner, r, w).value)
  }

  function Apply(h: Hashes, hasSigner: bool, c: Cache, op: Op): Cache {
    match op
    case Evict(keys) => c - keys
    case Ask(_) => c
    case Finish(r, _) =>
      var answer := Reply(h, hasSigner, c, op);
      if answer.Generated? then c[Key(h, r) := answer.pdf] else c
  }

  function After(h: Hashes, hasSigner: bool, ops: seq<Op>): Cache {
    if ops == [] then map[]
    else Apply(h, hasSigner, After(h, hasSigner, ops[..|ops| - 1]), ops[|ops| - 1])
  }

  function AnswerAt(h: Hashes, hasSigner: bool, ops: seq<Op>, i: nat): Answer
    requires i < |ops|
  {
    Reply(h, hasSigner, After(h, hasSigner, ops[..i]), ops[i])
  }

  /** The i-th step generated these bytes and stored them under this key. */
  predicate Stores(h: Hashes, hasSigner: bool, ops: seq<Op>, i: nat, key: string, pdf: Pdf) {
    && i < |ops| && ops[i].Finish? && Legal(ops[i].request)
    && AnswerAt(h, hasSigner, ops, i) == Generated(pdf) && Key(h, ops[i].request) == key
  }

  lemma {:induction false} EntriesWereGenerated(h: Hashes, hasSigner: bool, ops: seq<Op>, key: string)
    requires key in After(h, hasSigner, ops)
    ensures exists i :: 0 <= i < |ops| && Stores(h, hasSigner, ops, i, key, After(h, hasSigner, ops)[key])
  {
    var n := |ops| - 1;
    var front := ops[..n];
    var before := After(h, hasSigner, front);
    if key in before && After(h, hasSigner, ops)[key] == before[key] {
      EntriesWereGenerated(h, hasSigner, front, key);
      var i :| 0 <= i < n && Stores(h, hasSigner, front, i, key, before[key]);
      assert front[..i] == ops[..i];
      assert Stores(h, hasSigner, ops, i, key, before[key]);
    } else {
      assert Stores(h, hasSigner, ops, n, key, After(h, hasSigner, ops)[key]);
    }
  }

  /** What every export delivers: the bytes that it asks for, or a failure exactly when an ingredient is
      missing. A required signature is never left off. */
  lemma GeneratedIsAsAsked(h: Hashes, hasSigner: bool, ops: seq<Op>, i: nat)
    requires i < |ops| && ops[i].Finish?
    ensures var r, w, answer := ops[i].request, ops[i].work, AnswerAt(h, hasSigner, ops, i);
            && (answer.Generated? ==> Carries(hasSigner, r, w, answer.pdf))
            && (answer.Failed? <==>
                  Legal(r) && (w.rendered.None? || (r.requirePades && (!hasSigner || !HasId(r) || w.resigned.None?))))
            && (answer.Generated? || answer.Failed? <==> Legal(r))
  {
    hide After;
  }

  /** The same for hits: cached bytes are as the export asked that generated them. */
  lemma HitsAreAsAsked(h: Hashes, hasSigner: bool, ops: seq<Op>, j: nat) returns (i: nat)
    requires j < |ops| && AnswerAt(h, hasSigner, ops, j).Hit?
    ensures i < j && ops[i].Finish? && Key(h, ops[i].request) == Key(h, ops[j].request)
    ensures Carries(hasSigner, ops[i].request, ops[i].work, AnswerAt(h, hasSigner, ops, j).pdf)
  {
    hide After, Key;
    var key, pdf := Key(h, ops[j].request), AnswerAt(h, hasSigner, ops, j).pdf;
    EntriesWereGenerated(h, hasSigner, ops[..j], key);
    i :| 0 <= i < j && Stores(h, hasSigner, ops[..j], i, key, pdf);
    assert ops[..j][..i] == ops[..i] && ops[..j][i] == ops[i];
    GeneratedIsAsAsked(h, hasSigner, ops, i);
  }

  /** What was generated stays in the cache until it is evicted or generated anew. */
  lemma {:induction false} CachedUntilEvicted(h: Hashes, hasSigner: bool, pre: seq<Op>, r: Request, w: Work, post: seq<Op>)
    requires Reply(h, hasSigner, map[], Finish(r, w)).Generated?
    requires forall k :: 0 <= k < |post| ==>
               && (post[k].Evict? ==> Key(h, r) !in post[k].keys)
               && (post[k].Finish? ==> Key(h, post[k].request) != Key(h, r))
    ensures var c := After(h, hasSigner, pre + [Finish(r, w)] + post);
            Key(h, r) in c && Reply(h, hasSigner, c, Ask(r)) == Hit(Reply(h, hasSigner, map[], Finish(r, w)).pdf)
  {
    hide Key, Produced;
    if post == [] {
      assert pre + [Finish(r, w)] + post == pre + [Finish(r, w)];
      assert (pre + [Finish(r, w)])[..|pre|] == pre;
    } else {
      var n := |post| - 1;
      var all := pre + [Finish(r, w)] + post;
      CachedUntilEvicted(h, hasSigner, pre, r, w, post[..n]);
      assert all[..|all| - 1] == pre + [Finish(r, w)] + post[..n];
    }
  }

  // ---------------------------------------------------------------------------
  // Isolation
  // ---------------------------------------------------------------------------

  /** Names that the key format can take apart again; the document id is unrestricted. */
  predicate Separable(r: Request) {
    && ':' !in r.component && ':' !in r.role && (r.etag.Some? ==> ':' !in r.etag.value)
    && (r.watermark.Some? ==> WellFormed(r.watermark.value))
  }

  /** Base64url ids are 22 characters long and contain no colon. */
  ghost predicate MarkShape(h: Hashes) {
    forall x :: |h.mark(x)| == 22 && ':' !in h.mark(x)
  }

  /** The digests do not collide on these two requests. */
  ghost predicate NoCollision(h: Hashes, r: Request, s: Request) {
    && (Key(h, r) == Key(h, s) ==> Raw(h, r) == Raw(h, s))
    && (r.watermark.Some? && s.watermark.Some? && WatermarkId(h, r.watermark.value) == WatermarkId(h, s.watermark.value)
        ==> MarkPreimage(r.watermark.value) == MarkPreimage(s.watermark.value))
  }

  /** The document is named by its id, or by its template if it has none. */
  predicate SameDocument(r: Request, s: Request) {
    (if HasId(r) then r.documentId.value else r.template) == (if HasId(s) then s.documentId.value else s.template)
  }

  predicate Unversioned(etag: Option<string>) {
    etag in {None, Some(""), Some("noetag")}
  }

  predicate SameVersion(r: Request, s: Request) {
    r.etag == s.etag || (Unversioned(r.etag) && Unversioned(s.etag))
  }

  /** Same component, document, role, version and, for auditors, same auditor and engagement. */
  predicate SameExport(r: Request, s: Request) {
    && r.component == s.component && SameDocument(r, s) && r.role == s.role && SameVersion(r, s)
    && r.watermark == s.watermark
  }

  lemma MarkNeverDefault(h: Hashes, w: Watermark)
    requires MarkShape(h)
    ensures OrElse(Some(WatermarkId(h, w)), "none") == WatermarkId(h, w) != "none"
  {
    assert |h.mark(MarkPreimage(w))| == 22;
  }

  /** Two legal exports share a cache key exactly when they are the same export. */
  lemma KeyIsIdentity(h: Hashes, r: Request, s: Request)
    requires MarkShape(h) && Legal(r) && Legal(s) && Separable(r) && Separable(s) && NoCollision(h, r, s)
    ensures Key(h, r) == Key(h, s) <==> SameExport(r, s)
  {
    if r.watermark.Some? {
      MarkNeverDefault(h, r.watermark.value);
    }
    if s.watermark.Some? {
      MarkNeverDefault(h, s.watermark.value);
    }
    RawKeyInjective(r.component, Document(r), r.role, Mark(h, r), Tag(r),
                    s.component, Document(s), s.role, Mark(h, s), Tag(s));
    if Key(h, r) == Key(h, s) && r.watermark.Some? && s.watermark.Some? {
      MarkPreimageInjective(r.watermark.value, s.watermark.value);
    }
  }

  /** Cross-auditor isolation. In every interleaving of exports and evictions, the bytes of a cache
      hit were generated by an export for the same component, document, role and version, and an
      auditor only ever receives bytes generated for the same auditor and engagement. */
  lemma HitsAreIsolated(h: Hashes, hasSigner: bool, ops: seq<Op>, j: nat)
    requires MarkShape(h) && j < |ops| && AnswerAt(h, hasSigner, ops, j).Hit?
    requires forall i :: 0 <= i < |ops| && !ops[i].Evict? ==> Separable(ops[i].request)
    requires forall i :: 0 <= i < |ops| && !ops[i].Evict? ==> NoCollision(h, ops[i].request, ops[j].request)
    ensures exists i :: 0 <= i < j && ops[i].Finish?
                        && AnswerAt(h, hasSigner, ops, i) == Generated(AnswerAt(h, hasSigner, ops, j).pdf)
                        && SameExport(ops[i].request, ops[j].request)
                        && (ops[j].request.role == "auditor" ==> ops[i].request.watermark.Some?)
  {
    var key, pdf := Key(h, ops[j].request), AnswerAt(h, hasSigner, ops, j).pdf;
    EntriesWereGenerated(h, hasSigner, ops[..j], key);
    var i :| 0 <= i < j && Stores(h, hasSigner, ops[..j], i, key, pdf);
    assert ops[..j][..i] == ops[..i] && ops[..j][i] == ops[i];
    KeyIsIdentity(h, ops[i].request, ops[j].request);
  }

  lemma SharedKeyHits(h: Hashes, hasSigner: bool, r: Request, w: Work, s: Request)
    requires Legal(r) && Legal(s) && Key(h, r) == Key(h, s)
    ensures Produced(hasSigner, r, w).Some? ==>
              AnswerAt(h, hasSigner, [Finish(r, w), Ask(s)], 1) == Hit(Produced(hasSigner, r, w).value)
  {
    var ops := [Finish(r, w), Ask(s)];
    assert ops[..1] == [Finish(r, w)] && ops[..1][..0] == [];
    assert After(h, hasSigner, []) == map[];
  }

  /** Conversely the cache tells nothing else apart. A second export of the same document gets the
      first one's bytes, whatever its title, whichever identity is to be printed on the page, and
      even if it asks for a byte-range signature and the first one did not. So the isolation is per
      role, not per user, for everybody but auditors. */
  lemma SameExportsShare(h: Hashes, hasSigner: bool, r: Request, w: Work, s: Request)
    requires Legal(r) && Legal(s) && SameExport(r, s) && Produced(hasSigner, r, w).Some?
    ensures AnswerAt(h, hasSigner, [Finish(r, w), Ask(s)], 1) == Hit(Produced(hasSigner, r, w).value)
  {
    assert Key(h, r) == Key(h, s);
    SharedKeyHits(h, hasSigner, r, w, s);
  }

  /** Some legal export has this role and this mark. */
  ghost predicate IsPair(h: Hashes, role: string, mark: string) {
    if role == "auditor" then exists w :: WellFormed(w) && WatermarkId(h, w) == mark
    else role != "" && mark == "none"
  }

  /** A legal export that the key format can take apart and that has the raw key of `r`, but for
      another document, role or version. */
  predicate Confused(h: Hashes, r: Request, s: Request) {
    && Legal(s) && Separable(s) && Raw(h, s) == Raw(h, r)
    && !(s.component == r.component && SameDocument(s, r) && s.role == r.role && SameVersion(s, r))
  }

  lemma PairOf(h: Hashes, s: Request)
    requires MarkShape(h) && Legal(s) && Separable(s)
    ensures IsPair(h, s.role, Mark(h, s)) && ':' !in Mark(h, s)
  {
    if s.watermark.Some? {
      MarkNeverDefault(h, s.watermark.value);
    }
  }

  /** The export that the pieces describe. */
  lemma ExportOf(h: Hashes, r: Request, document: string, role: string, mark: string, tag: string) returns (s: Request)
    requires MarkShape(h) && Legal(r) && ':' !in r.component
    requires document != "" && tag != "" && ':' !in tag && ':' !in role && IsPair(h, role, mark)
    ensures Legal(s) && Separable(s) && Raw(h, s) == RawKey(r.component, document, role, mark, tag) && Tag(s) == tag
  {
    s := r.(documentId := Some(document), role := role, watermark := None, etag := Some(tag));
    if role == "auditor" {
      var w :| WellFormed(w) && WatermarkId(h, w) == mark;
      s := s.(watermark := Some(w));
      MarkNeverDefault(h, w);
    }
  }

  lemma MarkIsPlain(h: Hashes, r: Request)
    requires MarkShape(h)
    ensures ':' !in Mark(h, r)
  {
    if r.watermark.Some? {
      MarkNeverDefault(h, r.watermark.value);
    }
  }

  /** Which exports are confused with another, exactly. With colon-free component and role, it takes
      a version with colons, behind the last of which something stands, and the two pieces of
      "role:mark:version" before that must be a role and a mark that some legal export has. */
  lemma ConfusedExactly(h: Hashes, r: Request)
    requires MarkShape(h) && Legal(r)
    requires ':' !in r.component && ':' !in r.role
    ensures (exists s :: Confused(h, r, s))
       <==> r.etag.Some? && ':' in r.etag.value
            && var p := Take(r.role, Mark(h, r), r.etag.value); p.tag != "" && IsPair(h, p.role, p.mark)
  {
    hide RawKey, Take, IsPair;
    var m, t, d := Mark(h, r), Tag(r), Document(r);
    MarkIsPlain(h, r);
    if ':' in t {
      var p := Take(r.role, m, t);
      ReadDifferently(r.component, d, r.role, m, t);
      if p.tag != "" && IsPair(h, p.role, p.mark) {
        var s := ExportOf(h, r, d + [':'] + p.rest, p.role, p.mark, p.tag);
        assert Confused(h, r, s);
      }
      forall s | Confused(h, r, s) ensures p.tag != "" && IsPair(h, p.role, p.mark) {
        PairOf(h, s);
        RawKeyInjective(s.component, Document(s), s.role, Mark(h, s), Tag(s),
                        r.component, d + [':'] + p.rest, p.role, p.mark, p.tag);
      }
    } else {
      forall s | Confused(h, r, s) ensures false {
        PairOf(h, s);
        RawKeyInjective(s.component, Document(s), s.role, Mark(h, s), Tag(s), r.component, d, r.role, m, t);
      }
    }
  }

  /** A version with colons is served another document. Whoever asks, whatever the digests: after an
      export of document `d` whose version happens to spell out its own role and mark, an export of
      the document named "d:role:mark:x" at version `y` hits, and carries the bytes of `d`. */
  lemma ColonsServeAnotherDocument(h: Hashes, hasSigner: bool, base: Request, w: Work, d: string, x: string, y: string)
    requires Legal(base) && d != "" && y != ""
    ensures var seam := [':'] + base.role + [':'] + Mark(h, base) + [':'];
            var r := base.(documentId := Some(d), etag := Some(x + seam + y));
            var s := base.(documentId := Some(d + seam + x), etag := Some(y));
            && Legal(r) && Legal(s) && !SameExport(r, s)
            && (Produced(hasSigner, r, w).Some? ==>
                  AnswerAt(h, hasSigner, [Finish(r, w), Ask(s)], 1) == Hit(Produced(hasSigner, r, w).value))
  {
    var m := Mark(h, base);
    var seam := [':'] + base.role + [':'] + m + [':'];
    var r := base.(documentId := Some(d), etag := Some(x + seam + y));
    var s := base.(documentId := Some(d + seam + x), etag := Some(y));
    ColonInTagCollides(base.component, d, base.role, m, x, y);
    assert x + [':'] + base.role + [':'] + m + [':'] + y == x + seam + y;
    assert d + [':'] + base.role + [':'] + m + [':'] + x == d + seam + x;
    assert Document(r) == d && Document(s) == d + seam + x && |d + seam + x| > |d|;
    assert Raw(h, r) == Raw(h, s);
    SharedKeyHits(h, hasSigner, r, w, s);
  }

  /** Which versions of one request are not told apart: exactly the three ways to give none. */
  lemma NoEtagShares(h: Hashes, r: Request, e: Option<string>, f: Option<string>)
    ensures e == f || (Unversioned(e) && Unversioned(f)) ==> Key(h, r.(etag := e)) == Key(h, r.(etag := f))
    ensures MarkShape(h) && Legal(r) && Separable(r.(etag := e)) && Separable(r.(etag := f))
            && NoCollision(h, r.(etag := e), r.(etag := f)) && Key(h, r.(etag := e)) == Key(h, r.(etag := f))
            ==> e == f || (Unversioned(e) && Unversioned(f))
  {
    if MarkShape(h) && Legal(r) && Separable(r.(etag := e)) && Separable(r.(etag := f))
       && NoCollision(h, r.(etag := e), r.(etag := f)) {
      KeyIsIdentity(h, r.(etag := e), r.(etag := f));
    }
  }

  // ---------------------------------------------------------------------------
  // The objects
  // ---------------------------------------------------------------------------

  class PdfCache {
    var store: Cache
    var hits: nat
    var misses: nat

    constructor ()
      ensures store == map[] && hits == misses == 0
    {
      store, hits, misses := map[], 0, 0;
    }

    method Lookup(key: string) returns (entry: Option<Pdf>)
      modifies this`hits, this`misses
      ensures entry == if key in store then Some(store[key]) else None
      ensures hits == old(hits) + (if entry.Some? then 1 else 0)
      ensures hits + misses == old(hits + misses) + 1
    {
      if key !in store {
        misses := misses + 1;
        return None;
      }
      hits := hits + 1;
      return Some(store[key]);
    }

    method Put(key: string, pdf: Pdf)
      modifies this`store
      ensures store == old(store)[key := pdf]
    {
      store := store[key := pdf];
    }

    method Drop(keys: set<string>)
      modifies this`store
      ensures store == old(store) - keys
    {
      store := store - keys;
    }
  }

  class PdfService {
    const h: Hashes
    const hasSigner: bool
    const cache: PdfCache
    ghost var history: seq<Op>

    ghost predicate Valid()
      reads this, cache
    {
      cache.store == After(h, hasSigner, history)
    }

    constructor (h: Hashes, hasSigner: bool)
      ensures Valid() && fresh(cache) && history == [] && this.h == h && this.hasSigner == hasSigner
    {
      this.h, this.hasSigner := h, hasSigner;
      cache := new PdfCache();
      history := [];
    }

    lemma HistoryGrows(op: Op)
      ensures After(h, hasSigner, history + [op]) == Apply(h, hasSigner, After(h, hasSigner, history), op)
    {
      assert (history + [op])[..|history|] == history;
    }

    method Expire(keys: set<string>)
      requires Valid()
      modifies this, cache
      ensures Valid() && history == old(history) + [Evict(keys)]
      ensures cache.hits == old(cache.hits) && cache.misses == old(cache.misses)
    {
      HistoryGrows(Evict(keys));
      cache.Drop(keys);
      history := history + [Evict(keys)];
    }

    /** One export that nobody interrupts. Every legal export counts once, as a hit or as a miss. */
    method ExportPdf(r: Request, work: Work) returns (answer: Answer)
      requires Valid()
      modifies this, cache
      ensures Valid()
      ensures var looked := Reply(h, hasSigner, old(cache.store), Ask(r));
              if looked == Miss
              then answer == Reply(h, hasSigner, old(cache.store), Finish(r, work))
                   && history == old(history) + [Ask(r), Finish(r, work)]
              else answer == looked && history == old(history) + [Ask(r)]
      ensures answer.Invalid? <==> r.template == "" || r.title == "" || r.userIdentity == "" || r.role == ""
                                   || (r.role == "auditor" && r.watermark.None?) || (r.role != "auditor" && r.watermark.Some?)
      ensures answer.Generated? ==> Carries(hasSigner, r, work, answer.pdf)
      ensures answer.Failed? ==>
                work.rendered.None? || (r.requirePades && (!hasSigner || !HasId(r) || work.resigned.None?))
      ensures cache.hits == old(cache.hits) + (if answer.Hit? then 1 else 0)
      ensures cache.hits + cache.misses == old(cache.hits + cache.misses) + (if answer.Invalid? then 0 else 1)
    {
      hide After;
      ghost var was := history;
      HistoryGrows(Ask(r));
      history := history + [Ask(r)];
      if r.template == "" || r.title == "" || r.userIdentity == "" || r.role == "" {
        return Invalid;
      }
      if r.role == "auditor" && r.watermark.None? {
        return Invalid;
      }
      if r.role != "auditor" && r.watermark.Some? {
        return Invalid;
      }
      var key := Key(h, r);
      var cached := cache.Lookup(key);
      if cached.Some? {
        return Hit(cached.value);
      }
      HistoryGrows(Finish(r, work));
      history := history + [Finish(r, work)];
      assert history == was + [Ask(r), Finish(r, work)];
      if work.rendered.None? {
        return Failed;
      }
      var pdf := work.rendered.value;
      if r.requirePades {
        if !hasSigner {
          return Failed;
        }
        if r.documentId.None? || r.documentId.value == "" {
          return Failed;
        }
        if work.resigned.None? {
          return Failed;
        }
        pdf := work.resigned.value;
      }
      cache.Put(key, pdf);
      return Generated(pdf);
    }
  }
}
