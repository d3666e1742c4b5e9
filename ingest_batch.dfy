/**
 * The batch-building loop of the ingest script's `main`: every chunk of every file gets a
 * content-derived id, chunks already in the store are skipped, the rest are embedded and
 * added in one batch.
 */
module IngestBatch {
  import opened Wrappers
  import opened Text
  import opened Ingest

  // ---------------------------------------------------------------------------
  // Building the batch of new chunks (the loop in `main`)
  // ---------------------------------------------------------------------------

  /** A knowledge-base file as `read_files` returns it: its path and its text. */
  datatype Doc = Doc(path: string, text: string)

  /** Chunk number idx of the file src. */
  datatype Candidate = Candidate(src: string, idx: nat, chunk: string)

  /** What `col.get(ids=[hid])` reports: the id is stored, it is not, or the call raised. */
  datatype Probe = Found | Missing | LookupFailed

  /** The four parallel lists handed to `col.add`. */
  datatype Batch<E> = Batch(ids: seq<string>, documents: seq<string>,
                            metadatas: seq<map<string, string>>, embeddings: seq<E>)

  /**
   * How `main` ends: no files, nothing new, an embedding call raised (which aborts the
   * script before anything is added), or a batch added to the collection.
   */
  datatype IngestOutcome<E> = NoFiles | NothingNew | EmbedFailed | Added(batch: Batch<E>)

  /** The chunks `main` makes of one file: `chunk_text(text)` with its defaults. */
  function ChunksOf(d: Doc): seq<string> {
    Chunks(Trimmed(Some(d.text)), MaxChars, Overlap)
  }

  /** The text whose SHA-1 is the chunk id: `src + str(idx) + chunk[:50]`. */
  function IdKey(c: Candidate): string {
    c.src + NatToString(c.idx) + Slice(c.chunk, 0, 50)
  }

  /** The first m chunks of the file src, numbered. */
  function CandidatesUpTo(src: string, chunks: seq<string>, m: nat): (cs: seq<Candidate>)
    requires m <= |chunks|
    ensures |cs| == m
  {
    if m == 0 then [] else CandidatesUpTo(src, chunks, m - 1) + [Candidate(src, m - 1, chunks[m - 1])]
  }

  function DocCandidates(d: Doc): seq<Candidate> {
    CandidatesUpTo(d.path, ChunksOf(d), |ChunksOf(d)|)
  }

  /** Every chunk of every file, in the order of the two nested loops. */
  function Candidates(docs: seq<Doc>): seq<Candidate> {
    if docs == [] then [] else Candidates(docs[..|docs| - 1]) + DocCandidates(docs[|docs| - 1])
  }

  /** The candidates that are queued: those whose id the store does not report as present. */
  function Queued(cs: seq<Candidate>, hash: string -> string, probe: string -> Probe): seq<Candidate> {
    if cs == [] then []
    else
      var c := cs[|cs| - 1];
      Queued(cs[..|cs| - 1], hash, probe) + (if probe(hash(IdKey(c))) == Found then [] else [c])
  }

  /** Every queued chunk's embedding call returns: no call raises. */
  predicate AllEmbedded<E>(q: seq<Candidate>, embed: string -> Option<E>) {
    q == [] || (AllEmbedded(q[..|q| - 1], embed) && embed(q[|q| - 1].chunk).Some?)
  }

  /** The four lists with one more entry: `ids.append(hid)` and so on. */
  function Append<E>(b: Batch<E>, id: string, chunk: string, src: string, e: E): (r: Batch<E>)
    ensures |r.ids| == |b.ids| + 1
  {
    Batch(b.ids + [id], b.documents + [chunk], b.metadatas + [map["source" := src]], b.embeddings + [e])
  }

  /**
   * The batch `main` hands to `col.add` for the queue q: one entry per queued chunk, in
   * order (a chunk whose embedding raises never gets here; it contributes nothing).
   */
  function BatchOf<E>(q: seq<Candidate>, hash: string -> string, embed: string -> Option<E>): Batch<E> {
    if q == [] then Batch([], [], [], [])
    else
      var c := q[|q| - 1];
      var b := BatchOf(q[..|q| - 1], hash, embed);
      match embed(c.chunk)
      case Some(e) => Append(b, hash(IdKey(c)), c.chunk, c.src, e)
      case None => b
  }

  /** Entry j of the four lists is queued candidate j: its id, text, source and embedding. */
  predicate Describes<E(==)>(b: Batch<E>, q: seq<Candidate>, hash: string -> string, embed: string -> Option<E>) {
    && |b.ids| == |q| && |b.documents| == |q| && |b.metadatas| == |q| && |b.embeddings| == |q|
    && forall j :: 0 <= j < |q| ==>
         && b.ids[j] == hash(IdKey(q[j]))
         && b.documents[j] == q[j].chunk
         && b.metadatas[j] == map["source" := q[j].src]
         && embed(q[j].chunk) == Some(b.embeddings[j])
  }

  /**
   * The loop of `main` over the files and their chunks. `hash` stands for the SHA-1
   * hex digest, `probe` for `col.get`, `embed` for the embedding call (None: it raised).
   */
  method BuildBatch<E>(docs: seq<Doc>, hash: string -> string, probe: string -> Probe,
                       embed: string -> Option<E>) returns (outcome: IngestOutcome<E>)
    ensures outcome.NoFiles? <==> docs == []
    ensures docs != [] ==>
      var q := Queued(Candidates(docs), hash, probe);
      && (outcome.EmbedFailed? <==> !AllEmbedded(q, embed))
      && (outcome.NothingNew? <==> AllEmbedded(q, embed) && q == [])
      && (outcome.Added? ==> AllEmbedded(q, embed) && outcome.batch == BatchOf(q, hash, embed))
  {
    if docs == [] {
      return NoFiles;
    }
    var batch: Batch<E> := Batch([], [], [], []);
    var d := 0;
    while d < |docs|
      invariant 0 <= d <= |docs|
      invariant AllEmbedded(Queued(Candidates(docs[..d]), hash, probe), embed)
      invariant batch == BatchOf(Queued(Candidates(docs[..d]), hash, probe), hash, embed)
    {
      var chunks := ChunkText(Some(docs[d].text), MaxChars, Overlap);
      var ok, k;
      batch, ok, k := AddFileChunks(docs[d].path, chunks, Candidates(docs[..d]), batch, hash, probe, embed);
      if !ok {
        EmbedFailureIsQueued(docs, d, k, hash, probe);
        QueuedIff(Candidates(docs), hash, probe, Candidate(docs[d].path, k, chunks[k]));
        AllEmbeddedIff(Queued(Candidates(docs), hash, probe), embed);
        return EmbedFailed;
      }
      CandidatesSnocDoc(docs, d);
      d := d + 1;
    }
    assert docs[..|docs|] == docs;
    BatchOfSize(Queued(Candidates(docs), hash, probe), hash, embed);
    if |batch.ids| == 0 {
      return NothingNew;
    }
    return Added(batch);
  }

  /**
   * The inner loop of `main`, over the chunks of one file: each chunk whose id the store
   * does not report as present is embedded and appended to the four lists. When an
   * embedding raises, ok is false and k is the chunk it raised on.
   */
  method AddFileChunks<E>(src: string, chunks: seq<string>, ghost before: seq<Candidate>,
                          batch: Batch<E>, hash: string -> string, probe: string -> Probe,
                          embed: string -> Option<E>)
    returns (batch': Batch<E>, ok: bool, k: nat)
    requires AllEmbedded(Queued(before, hash, probe), embed)
    requires batch == BatchOf(Queued(before, hash, probe), hash, embed)
    ensures ok ==> AllEmbedded(Queued(before + CandidatesUpTo(src, chunks, |chunks|), hash, probe), embed)
    ensures ok ==> batch' == BatchOf(Queued(before + CandidatesUpTo(src, chunks, |chunks|), hash, probe), hash, embed)
    ensures !ok ==> k < |chunks| && probe(hash(IdKey(Candidate(src, k, chunks[k])))) != Found
                    && embed(chunks[k]).None?
  {
    batch' := batch;
    k := 0;
    assert before + CandidatesUpTo(src, chunks, 0) == before;
    while k < |chunks|
      invariant 0 <= k <= |chunks|
      invariant AllEmbedded(Queued(before + CandidatesUpTo(src, chunks, k), hash, probe), embed)
      invariant batch' == BatchOf(Queued(before + CandidatesUpTo(src, chunks, k), hash, probe), hash, embed)
    {
      var chunk := chunks[k];
      var hid := hash(IdKey(Candidate(src, k, chunk)));
      if probe(hid) != Found {
        var e := embed(chunk);
        if e.None? {
          return batch', false, k;
        }
        QueueStep(before, src, chunks, k, hash, probe, embed);
        batch' := Append(batch', hid, chunk, src, e.value);
      } else {
        SkipStep(before, src, chunks, k, hash, probe);
      }
      k := k + 1;
    }
    ok := true;
  }

  lemma QueuedSnoc(cs: seq<Candidate>, c: Candidate, hash: string -> string, probe: string -> Probe)
    ensures Queued(cs + [c], hash, probe)
         == Queued(cs, hash, probe) + (if probe(hash(IdKey(c))) == Found then [] else [c])
  {
    assert (cs + [c])[..|cs|] == cs;
  }

  /** A chunk already in the store adds nothing to the queue. */
  lemma SkipStep(before: seq<Candidate>, src: string, chunks: seq<string>, k: nat,
                 hash: string -> string, probe: string -> Probe)
    requires k < |chunks|
    requires probe(hash(IdKey(Candidate(src, k, chunks[k])))) == Found
    ensures Queued(before + CandidatesUpTo(src, chunks, k + 1), hash, probe)
         == Queued(before + CandidatesUpTo(src, chunks, k), hash, probe)
  {
    var c := Candidate(src, k, chunks[k]);
    var upto := before + CandidatesUpTo(src, chunks, k);
    assert before + CandidatesUpTo(src, chunks, k + 1) == upto + [c];
    QueuedSnoc(upto, c, hash, probe);
  }

  /** A new chunk joins the queue, and its entries are appended to the four lists. */
  lemma QueueStep<E>(before: seq<Candidate>, src: string, chunks: seq<string>, k: nat,
                     hash: string -> string, probe: string -> Probe, embed: string -> Option<E>)
    requires k < |chunks|
    requires probe(hash(IdKey(Candidate(src, k, chunks[k])))) != Found
    requires embed(chunks[k]).Some?
    ensures var c := Candidate(src, k, chunks[k]);
      && Queued(before + CandidatesUpTo(src, chunks, k + 1), hash, probe)
         == Queued(before + CandidatesUpTo(src, chunks, k), hash, probe) + [c]
      && (AllEmbedded(Queued(before + CandidatesUpTo(src, chunks, k), hash, probe), embed) ==>
          AllEmbedded(Queued(before + CandidatesUpTo(src, chunks, k + 1), hash, probe), embed))
      && BatchOf(Queued(before + CandidatesUpTo(src, chunks, k + 1), hash, probe), hash, embed)
         == Append(BatchOf(Queued(before + CandidatesUpTo(src, chunks, k), hash, probe), hash, embed),
                   hash(IdKey(Candidate(src, k, chunks[k]))), chunks[k], src, embed(chunks[k]).value)
  {
    var c := Candidate(src, k, chunks[k]);
    var upto := before + CandidatesUpTo(src, chunks, k);
    assert before + CandidatesUpTo(src, chunks, k + 1) == upto + [c];
    QueuedSnoc(upto, c, hash, probe);
    var q := Queued(upto, hash, probe);
    assert (q + [c])[..|q|] == q;
  }

  lemma CandidatesSnocDoc(docs: seq<Doc>, d: nat)
    requires d < |docs|
    ensures Candidates(docs[..d + 1]) == Candidates(docs[..d]) + DocCandidates(docs[d])
  {
    assert docs[..d + 1][..d] == docs[..d];
  }

  /** AllEmbedded says what its name says: no queued chunk's embedding raises. */
  lemma {:induction false} AllEmbeddedIff<E>(q: seq<Candidate>, embed: string -> Option<E>)
    ensures AllEmbedded(q, embed) <==> forall c :: c in q ==> embed(c.chunk).Some?
    decreases |q|
  {
    if q != [] {
      AllEmbeddedIff(q[..|q| - 1], embed);
      assert q == q[..|q| - 1] + [q[|q| - 1]];
    }
  }

  /** When no embedding raises, the batch has one entry per queued chunk. */
  lemma {:induction false} BatchOfSize<E>(q: seq<Candidate>, hash: string -> string, embed: string -> Option<E>)
    requires AllEmbedded(q, embed)
    ensures |BatchOf(q, hash, embed).ids| == |q|
    decreases |q|
  {
    if q != [] {
      BatchOfSize(q[..|q| - 1], hash, embed);
    }
  }

  /**
   * When no embedding raises, the batch describes the queue entry by entry: id,
   * text, `{"source": src}` and embedding of queued chunk j are entry j of the four lists.
   */
  lemma {:induction false} BatchOfDescribes<E>(q: seq<Candidate>, hash: string -> string, embed: string -> Option<E>)
    requires AllEmbedded(q, embed)
    ensures Describes(BatchOf(q, hash, embed), q, hash, embed)
    decreases |q|
  {
    if q != [] {
      var p := q[..|q| - 1];
      BatchOfDescribes(p, hash, embed);
      var b := BatchOf(p, hash, embed);
      var b' := BatchOf(q, hash, embed);
      forall j | 0 <= j < |q|
        ensures && b'.ids[j] == hash(IdKey(q[j])) && b'.documents[j] == q[j].chunk
                && b'.metadatas[j] == map["source" := q[j].src] && embed(q[j].chunk) == Some(b'.embeddings[j])
      {
        if j < |p| {
          assert q[j] == p[j];
        }
      }
    }
  }

  /** The candidate whose embedding fails is one of the queued candidates of all files. */
  lemma EmbedFailureIsQueued(docs: seq<Doc>, d: nat, k: nat, hash: string -> string, probe: string -> Probe)
    requires d < |docs| && k < |ChunksOf(docs[d])|
    requires probe(hash(IdKey(Candidate(docs[d].path, k, ChunksOf(docs[d])[k])))) != Found
    ensures Candidate(docs[d].path, k, ChunksOf(docs[d])[k]) in Queued(Candidates(docs), hash, probe)
  {
    var chunks := ChunksOf(docs[d]);
    var c := Candidate(docs[d].path, k, chunks[k]);
    var upto := Candidates(docs[..d]) + CandidatesUpTo(docs[d].path, chunks, k + 1);
    assert upto == (Candidates(docs[..d]) + CandidatesUpTo(docs[d].path, chunks, k)) + [c];
    assert upto[..|upto| - 1] + [c] == upto;
    assert c in Queued(upto, hash, probe);
    CandidatesUpToPrefix(docs[d].path, chunks, k + 1, |chunks|);
    assert docs[..d + 1][..d] == docs[..d];
    assert upto <= Candidates(docs[..d + 1]);
    CandidatesPrefix(docs, d + 1);
    QueuedPrefix(upto, Candidates(docs), hash, probe);
  }

  lemma {:induction false} CandidatesUpToPrefix(src: string, chunks: seq<string>, k: nat, m: nat)
    requires k <= m <= |chunks|
    ensures CandidatesUpTo(src, chunks, k) <= CandidatesUpTo(src, chunks, m)
    decreases m
  {
    if k < m {
      CandidatesUpToPrefix(src, chunks, k, m - 1);
    }
  }

  lemma {:induction false} CandidatesPrefix(docs: seq<Doc>, d: nat)
    requires d <= |docs|
    ensures Candidates(docs[..d]) <= Candidates(docs)
    decreases |docs|
  {
    if d < |docs| {
      var init := docs[..|docs| - 1];
      assert init[..d] == docs[..d];
      CandidatesPrefix(init, d);
    } else {
      assert docs[..d] == docs;
    }
  }

  lemma {:induction false} QueuedPrefix(p: seq<Candidate>, cs: seq<Candidate>, hash: string -> string, probe: string -> Probe)
    requires p <= cs
    ensures Queued(p, hash, probe) <= Queued(cs, hash, probe)
    decreases |cs|
  {
    if |p| < |cs| {
      QueuedPrefix(p, cs[..|cs| - 1], hash, probe);
    } else {
      assert p == cs;
    }
  }

  /**
   * A chunk is queued exactly when the store does not report its id as present:
   * a failed lookup queues it as well.
   */
  lemma {:induction false} QueuedIff(cs: seq<Candidate>, hash: string -> string, probe: string -> Probe, c: Candidate)
    ensures c in Queued(cs, hash, probe) <==> c in cs && probe(hash(IdKey(c))) != Found
    decreases |cs|
  {
    if cs != [] {
      QueuedIff(cs[..|cs| - 1], hash, probe, c);
      assert cs == cs[..|cs| - 1] + [cs[|cs| - 1]];
    }
  }

  /** Nothing is added exactly when every chunk of every file is already in the store. */
  lemma NothingNewIff(docs: seq<Doc>, hash: string -> string, probe: string -> Probe)
    ensures Queued(Candidates(docs), hash, probe) == []
        <==> forall c :: c in Candidates(docs) ==> probe(hash(IdKey(c))) == Found
  {
    var q := Queued(Candidates(docs), hash, probe);
    if q != [] {
      QueuedIff(Candidates(docs), hash, probe, q[0]);
    } else {
      forall c | c in Candidates(docs)
        ensures probe(hash(IdKey(c))) == Found
      {
        QueuedIff(Candidates(docs), hash, probe, c);
      }
    }
  }

  lemma {:induction false} CandidatesUpToIff(src: string, chunks: seq<string>, m: nat, c: Candidate)
    requires m <= |chunks|
    ensures c in CandidatesUpTo(src, chunks, m) <==> c.src == src && c.idx < m && c.chunk == chunks[c.idx]
  {
    if m > 0 {
      CandidatesUpToIff(src, chunks, m - 1, c);
    }
  }

  /** A candidate is chunk idx of one of the files, and every such chunk is a candidate. */
  lemma {:induction false} CandidatesIff(docs: seq<Doc>, c: Candidate)
    ensures c in Candidates(docs) <==>
      exists i :: 0 <= i < |docs| && c.src == docs[i].path && c.idx < |ChunksOf(docs[i])|
                  && c.chunk == ChunksOf(docs[i])[c.idx]
    decreases |docs|
  {
    if docs != [] {
      var init := docs[..|docs| - 1];
      var last := docs[|docs| - 1];
      CandidatesIff(init, c);
      CandidatesUpToIff(last.path, ChunksOf(last), |ChunksOf(last)|, c);
      if c in Candidates(docs) && c !in Candidates(init) {
        assert c.src == docs[|docs| - 1].path;
      }
      if exists i :: 0 <= i < |docs| && c.src == docs[i].path && c.idx < |ChunksOf(docs[i])|
                     && c.chunk == ChunksOf(docs[i])[c.idx] {
        var i :| 0 <= i < |docs| && c.src == docs[i].path && c.idx < |ChunksOf(docs[i])|
                 && c.chunk == ChunksOf(docs[i])[c.idx];
        if i < |docs| - 1 {
          assert init[i] == docs[i];
        }
      }
    }
  }

  /**
   * Entry j of an added batch carries a chunk of some file, and its metadata's
   * source is that file's path.
   */
  lemma BatchEntryOrigin<E>(docs: seq<Doc>, hash: string -> string, probe: string -> Probe,
                            embed: string -> Option<E>, j: nat)
    requires AllEmbedded(Queued(Candidates(docs), hash, probe), embed)
    requires j < |Queued(Candidates(docs), hash, probe)|
    ensures var b := BatchOf(Queued(Candidates(docs), hash, probe), hash, embed);
      j < |b.ids| && j < |b.documents| && j < |b.metadatas| &&
      exists i, k ::
        && 0 <= i < |docs| && 0 <= k < |ChunksOf(docs[i])|
        && b.metadatas[j] == map["source" := docs[i].path]
        && b.documents[j] == ChunksOf(docs[i])[k]
        && b.ids[j] == hash(docs[i].path + NatToString(k) + Slice(ChunksOf(docs[i])[k], 0, 50))
  {
    var q := Queued(Candidates(docs), hash, probe);
    var b := BatchOf(q, hash, embed);
    BatchOfDescribes(q, hash, embed);
    var c := q[j];
    QueuedIff(Candidates(docs), hash, probe, c);
    CandidatesIff(docs, c);
    var i :| 0 <= i < |docs| && c.src == docs[i].path && c.idx < |ChunksOf(docs[i])|
             && c.chunk == ChunksOf(docs[i])[c.idx];
    assert b.metadatas[j] == map["source" := docs[i].path];
  }
}
