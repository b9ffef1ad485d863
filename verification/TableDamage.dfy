/** Damage to a table file: with checksums on, a lookup in a copy with broken data blocks gives
    what the whole file gives, or says that it could not read the block (table/format.cc,
    table/table.cc). */
module TableDamages {
  import opened Wrappers
  import opened Coding
  import opened Comparators
  import opened BlockFormat
  import opened BlockScans
  import opened TableFormat
  import opened TableIndexes
  import opened TableImages
  import opened FilterBlocks
  import opened Tables

  /** The block that a checksum says is not what was written. */
  ghost predicate Broken(image: Image, copy: Bytes, b: nat)
    requires b < |image.data.handles|
  {
    !IsBlock(copy, image.data.handles[b])
  }

  /** A copy of a table with the same footer, index, metaindex and filter, and each data block
      whole or broken. */
  ghost predicate DamagedCopy(image: Image, file: Bytes, copy: Bytes) {
    && |copy| == |file| >= FOOTER && copy[|copy| - FOOTER..] == file[|file| - FOOTER..]
    && image.IndexOk(copy) && image.MetaOk(copy)
    && (image.policy.Some? ==> Stores(copy, image.filterHandle, image.filter))
    && |image.data.blocks| == |image.data.handles|
    && forall b :: 0 <= b < |image.data.handles| ==>
         image.data.StoredAt(copy, b) || Broken(image, copy, b)
  }

  /** How many leading entries are before the key. */
  ghost function Place(es: seq<Entry>, k: IKey): (p: nat)
    ensures p <= |es| && (forall i :: 0 <= i < p ==> IOrder(es[i].key, k)) && (p < |es| ==> !IOrder(es[p].key, k))
  {
    if es == [] || !IOrder(es[0].key, k) then 0 else Place(es[1..], k) + 1
  }

  /** The data block in which a lookup looks. */
  ghost predicate LooksIn(t: Table, k: IKey, b: nat)
    requires t.Valid()
  {
    && |t.image.data.seps| == |t.image.data.handles| && b < |t.image.data.handles|
    && Place(t.image.data.IndexEntries(), k) == b && !t.Excluded(t.image.data.handles[b].Encode(), k)
  }

  lemma {:induction false} IndexSearch(t: Table, k: IKey)
    requires t.Valid() && t.Intact()
    ensures |t.image.data.seps| == |t.image.data.handles| == |t.image.data.blocks|
    ensures var es := t.image.data.IndexEntries();
            var p := Place(es, k);
            && Search(IOrder, t.indexBlock, k) == (if p < |es| then Some(es[p]) else None, true)
            && (p < |es| ==> es[p].value == t.image.data.handles[p].Encode() && t.image.data.handles[p].Fits())
  {
    hide Search, Sorted, Layout.Valid, Indexed, Layout.Contents, Layout.Body, Image.MetaOk, FilterOk, Handle.Encode;
    Table.IndexFacts(t.image, t.file);
    IOrderTransitive();
    var es := t.image.data.IndexEntries();
    var p := Place(es, k);
    SearchIs(IOrder, t.image.index, k, p);
    if p < |es| {
      Table.StoredBlock(t.image.data, t.file, p);
    }
  }

  /** The lookup in the copy fails exactly when it looks in a broken block; else it gives the
      answer of the whole file. */
  lemma {:induction false} ReportedOrSame(t: Table, t': Table, k: IKey)
    requires t.Valid() && t.Intact() && t'.Valid() && t'.image == t.image && t'.policy == t.policy
    requires t'.indexBlock == t.indexBlock && t'.filter == t.filter && DamagedCopy(t.image, t.file, t'.file)
    ensures if exists b :: LooksIn(t, k, b) && Broken(t.image, t'.file, b) then t'.Got(k, true) == (None, false)
            else t'.Got(k, true) == t.Got(k, true)
  {
    hide Search, Place, Table.Intact, Table.Excluded, Layout.Contents, IsBlock, Image.IndexOk, Image.MetaOk,
         Handle.Encode, DecodeHandle, Stores;
    IndexSearch(t, k);
    var es := t.image.data.IndexEntries();
    var p := Place(es, k);
    SameExclusion(t, t', k, p);
    if p < |es| && !t.Excluded(es[p].value, k) {
      assert LooksIn(t, k, p);
      BlockOfCopy(t, t', k, p);
    }
  }

  lemma {:induction false} SameExclusion(t: Table, t': Table, k: IKey, p: nat)
    requires t.Valid() && t'.Valid() && t'.policy == t.policy && t'.filter == t.filter
    ensures forall v :: t'.Excluded(v, k) <==> t.Excluded(v, k)
  {
  }

  lemma {:induction false} BlockOfCopy(t: Table, t': Table, k: IKey, p: nat)
    requires t.Valid() && t.Intact() && DamagedCopy(t.image, t.file, t'.file) && p < |t.image.data.handles|
    ensures var v := t.image.data.handles[p].Encode();
            t'.InBlock(true, v, k) == if Broken(t.image, t'.file, p) then (None, false) else t.InBlock(true, v, k)
  {
    hide Search, Layout.Contents, Layout.Valid, IsBlock, Image.IndexOk, Image.MetaOk, Stores, FilterOk, Indexed,
         BlockAt, Handle.Encode, DecodeHandle, Table.Valid;
    var h := t.image.data.handles[p];
    Table.StoredBlock(t.image.data, t.file, p);
    var c := t.image.data.blocks[p].Contents();
    assert h.Encode() == h.Encode() + [];
    HandleRoundTrip(h, []);
    StoresIsAt(t.file, h, c, true);
    if Broken(t.image, t'.file, p) {
      BrokenIsNone(t'.file, h);
    } else {
      assert t.image.data.StoredAt(t'.file, p);
      StoresIsAt(t'.file, h, c, true);
    }
  }

  lemma {:induction false} BrokenIsNone(file: Bytes, h: Handle)
    requires !IsBlock(file, h)
    ensures BlockAt(file, true, h) == None
  {
    hide IsBlock;
  }

  /** The copy opens with the index and the filter of the table. */
  lemma {:induction false} CopyOpens(image: Image, file: Bytes, copy: Bytes, policy: Option<FilterPolicy>)
    requires image.IsTable(file) && |file| < TWO32 && DamagedCopy(image, file, copy)
    ensures IndexIn(copy, true) == IndexIn(file, true) && IndexIn(file, true).Some?
            && IndexIn(file, true).value.0 == image.metaHandle
    ensures policy.Some? ==> FilterNamed(copy, policy.value.name, true, image.metaHandle) ==
                             FilterNamed(file, policy.value.name, true, image.metaHandle)
  {
    hide Layout.Contents, Layout.Valid, Stores, BlockAt, DecodeFooter, Footer, FilterNamed, Image.DataOk, IsBlock;
    FooterFacts(image, file);
    StoresIsAt(file, image.indexHandle, image.index.Contents(), true);
    StoresIsAt(copy, image.indexHandle, image.index.Contents(), true);
    if policy.Some? {
      FilterFound(image, file, policy.value.name, true);
      FilterFound(image, copy, policy.value.name, true);
    }
  }

  /** The filter block is found under the name of its policy, and no other. */
  lemma {:induction false} FilterFound(image: Image, file: Bytes, name: Bytes, paranoidChecks: bool)
    requires image.MetaOk(file) && |file| < TWO32
    requires image.policy.Some? ==> Stores(file, image.filterHandle, image.filter)
    ensures FilterNamed(file, name, paranoidChecks, image.metaHandle) ==
            if image.policy.Some? && image.policy.value.name == name then Some(Reader(image.filter)) else None
  {
    hide Search, Reader, FilterKey, Layout.Contents, Layout.Valid, RawBlock, Sorted, Transitive, BlockAt, Less;
    var es, key := image.meta.entries, FilterKey(name);
    StoresIsAt(file, image.metaHandle, image.meta.Contents(), paranoidChecks);
    LessIsTransitive();
    LessIrreflexive(key);
    FewAreSorted(es);
    var p: nat := if es != [] && Less(es[0].key, key) then 1 else 0;
    SearchIs(Less, image.meta, key, p);
    if image.policy.Some? {
      SameName(name, image.policy.value.name);
      assert image.filterHandle.Encode() == image.filterHandle.Encode() + [];
      StoresIsAt(file, image.filterHandle, image.filter, paranoidChecks);
      HandleRoundTrip(image.filterHandle, []);
    }
  }

  lemma {:induction false} FewAreSorted(es: seq<Entry>)
    ensures |es| <= 1 ==> Sorted(es, Less)
  {
  }

  /** Look up a key in a table and in its copy. */
  method GetFromBoth(file: Bytes, copy: Bytes, ghost image: Image, policy: Option<FilterPolicy>, k: IKey)
    returns (r: Option<Entry>, ok: bool)
    requires image.IsTable(file) && |file| < TWO32 && DamagedCopy(image, file, copy)
    requires Compatible(policy, image.policy) && (policy.Some? ==> UserHash(policy.value))
    ensures ok ==> Answers(Flat(EntriesOf(image.data.blocks)), k, r)
    ensures !ok ==> r == None && exists b :: 0 <= b < |image.data.handles| && Broken(image, copy, b)
  {
    hide Answers, Image.IsTable, Search, IndexIn, FilterNamed, DamagedCopy, Table.Got, Table.Valid, UserHash,
         Compatible,
         Place, Table.Excluded, IsBlock, Flat;
    CopyOpens(image, file, copy, policy);
    var whole := Open(file, policy, true, image);
    var table := Open(copy, policy, true, image);
    var answer, good := whole.InternalGet(k, true);
    r, ok := table.InternalGet(k, true);
    ReportedOrSame(whole, table, k);
  }
}
