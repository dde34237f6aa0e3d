/**
 * `DocIdPusher.Record`, the immutable feed attributes of one document, and its
 * mutable `Builder`.
 */
module Records {
  import opened Jdk
  import DocIds

  /** `java.util.Date`, kept opaque: two dates are equal when their instants are. */
  datatype Date = Date(millis: Int64)

  /**
   * `java.net.URI`, kept opaque: `==` on it stands for `URI.equals`, and its
   * string form and hash code come in as parameters.
   */
  type Uri(==)

  /**
   * The seven fields of a Record. `lastModified` and `link` may be null; the
   * Builder guarantees `id` is not.
   */
  datatype Record = Record(
    id: DocIds.DocId,
    delete: bool,
    lastModified: Option<Date>,
    link: Option<Uri>,
    crawlImmediately: bool,
    crawlOnce: bool,
    lock: bool)

  /** The Record a Builder made from only a DocId builds: every flag false, no date, no link. */
  function Defaults(id: DocIds.DocId): Record
  {
    Record(id, false, None, None, false, false, false)
  }

  /** `equalsNullSafe`: both null, or both present and equal. */
  predicate EqualsNullSafe<T(==)>(a: Option<T>, b: Option<T>)
  {
    if a.None? && b.None? then true
    else if a.Some? && b.Some? then a.value == b.value
    else false
  }

  /** Null-safe comparison is equality of the optional values: absent matches only absent. */
  lemma EqualsNullSafeIsEquality<T>(a: Option<T>, b: Option<T>)
    ensures EqualsNullSafe(a, b) <==> a == b
    ensures EqualsNullSafe(a, None) <==> a.None?
  {
  }

  /** `Record.equals(o)`, with `None` for null or an object of another class. */
  predicate Equals(r: Record, o: Option<Record>)
  {
    && o.Some?
    && DocIds.Equals(r.id, Some(o.value.id))
    && r.delete == o.value.delete
    && r.crawlImmediately == o.value.crawlImmediately
    && r.crawlOnce == o.value.crawlOnce
    && r.lock == o.value.lock
    && EqualsNullSafe(r.lastModified, o.value.lastModified)
    && EqualsNullSafe(r.link, o.value.link)
  }

  /** Records are equal exactly when all seven fields are, and never equal null. */
  lemma EqualsIsValueEquality(a: Record, b: Record)
    ensures Equals(a, Some(b)) <==> a == b
    ensures !Equals(a, None)
  {
    DocIds.EqualsIsValueEquality(a.id, b.id);
    EqualsNullSafeIsEquality(a.lastModified, b.lastModified);
    EqualsNullSafeIsEquality(a.link, b.link);
  }

  /** `Arrays.hashCode` over the hash codes of the elements. */
  function ArraysHash(hashes: seq<Int32>): Int32
  {
    if hashes == [] then 1
    else WrapInt32(31 * ArraysHash(hashes[..|hashes| - 1]) as int + hashes[|hashes| - 1] as int)
  }

  /** The hash code of a possibly-null element: 0 for null. */
  function NullableHash<T>(o: Option<T>, hash: T -> Int32): Int32
  {
    match o
    case None => 0
    case Some(v) => hash(v)
  }

  /**
   * `Record.hashCode`: `Arrays.hashCode` of the seven fields in declaration order.
   * `Date.hashCode` and `URI.hashCode` are the JDK's and come in as parameters.
   */
  function HashCode(r: Record, dateHash: Date -> Int32, uriHash: Uri -> Int32): Int32
  {
    ArraysHash([
      DocIds.HashCode(r.id),
      BoolHash(r.delete),
      NullableHash(r.lastModified, dateHash),
      NullableHash(r.link, uriHash),
      BoolHash(r.crawlImmediately),
      BoolHash(r.crawlOnce),
      BoolHash(r.lock)])
  }

  /** Equal Records have equal hash codes. */
  lemma HashCodeAgreesWithEquals(a: Record, b: Record, dateHash: Date -> Int32, uriHash: Uri -> Int32)
    requires Equals(a, Some(b))
    ensures HashCode(a, dateHash, uriHash) == HashCode(b, dateHash, uriHash)
  {
    EqualsIsValueEquality(a, b);
  }

  /** The string form of a possibly-null field: "null" for null. */
  function NullableText<T>(o: Option<T>, text: T -> string): string
  {
    match o
    case None => "null"
    case Some(v) => text(v)
  }

  /** The last field of `Record.toString` and the closing parenthesis. */
  function LockText(lock: bool): string
  {
    ",lock=" + BoolText(lock) + ")"
  }

  /** The fields `Record.toString` writes between the unique id and the lock field. */
  function MiddleFields(r: Record, dateText: Date -> string, uriText: Uri -> string): string
  {
    ",delete=" + BoolText(r.delete)
      + ",lastModified=" + NullableText(r.lastModified, dateText)
      + ",resultLink=" + NullableText(r.link, uriText)
      + ",crawlImmediately=" + BoolText(r.crawlImmediately)
      + ",crawlOnce=" + BoolText(r.crawlOnce)
  }

  /**
   * `Record.toString`: the fields in a fixed order, the DocId by its unique id only.
   * `Date.toString` depends on the default time zone and, like `URI.toString`,
   * comes in as a parameter.
   */
  function ToString(r: Record, dateText: Date -> string, uriText: Uri -> string): string
  {
    "Record(docid=" + r.id.uniqId + MiddleFields(r, dateText, uriText) + LockText(r.lock)
  }

  /** The string starts with the document's unique id. */
  lemma ToStringStartsWithId(r: Record, dateText: Date -> string, uriText: Uri -> string)
    ensures var s := ToString(r, dateText, uriText);
      |s| >= 13 + |r.id.uniqId| && s[..13 + |r.id.uniqId|] == "Record(docid=" + r.id.uniqId
  {
    var head := "Record(docid=" + r.id.uniqId;
    PrefixOfConcat(head, MiddleFields(r, dateText, uriText) + LockText(r.lock));
  }

  /** The string ends by telling whether the Record is locked. */
  lemma ToStringShowsLock(r: Record, dateText: Date -> string, uriText: Uri -> string)
    ensures var s := ToString(r, dateText, uriText);
      |s| >= 11 && (s[|s| - 11..] == ",lock=true)" <==> r.lock)
  {
    LockTextShowsLock(r.lock);
    SuffixOfConcat("Record(docid=" + r.id.uniqId + MiddleFields(r, dateText, uriText), LockText(r.lock), 11);
  }

  /** The lock field's text ends in ",lock=true)" exactly when the flag is set. */
  lemma LockTextShowsLock(lock: bool)
    ensures var t := LockText(lock);
      |t| >= 11 && (t[|t| - 11..] == ",lock=true)" <==> lock)
  {
    if !lock {
      var t := LockText(lock);
      assert t == ",lock=false)";
      assert t[|t| - 11..][0] == 'l';
    }
  }

  /** A concatenation starts with its first part. */
  lemma PrefixOfConcat(a: string, b: string)
    ensures (a + b)[..|a|] == a
  {
  }

  /** A concatenation ends with the end of its last part. */
  lemma SuffixOfConcat(a: string, b: string, k: nat)
    requires k <= |b|
    ensures (a + b)[|a + b| - k..] == b[|b| - k..]
  {
  }

  /** A Record's DocId permissions are not shown: Records differing only there print alike. */
  lemma ToStringOmitsPermissions(r: Record, access: DocIds.DocReadPermissions, dateText: Date -> string, uriText: Uri -> string)
    ensures ToString(r, dateText, uriText) == ToString(r.(id := r.id.(access := access)), dateText, uriText)
  {
  }

  /**
   * `Record.Builder`: seven mutable fields, a setter per field that changes only
   * that field and returns the builder itself, and `build`, which snapshots the
   * fields without resetting them.
   */
  class Builder {
    var docid: DocIds.DocId
    var delete: bool
    var lastModified: Option<Date>
    var link: Option<Uri>
    var crawlImmediately: bool
    var crawlOnce: bool
    var lock: bool

    /** The Record `build` would return now. */
    function Current(): Record
      reads this
    {
      Record(docid, delete, lastModified, link, crawlImmediately, crawlOnce, lock)
    }

    /** `new Builder(id)` for a non-null id: the DocId and every other field at its default. */
    constructor OfDocId(id: DocIds.DocId)
      ensures Current() == Defaults(id)
    {
      docid := id;
      delete := false;
      lastModified := None;
      link := None;
      crawlImmediately := false;
      crawlOnce := false;
      lock := false;
    }

    /** `new Builder(startPoint)` for a non-null Record: all seven fields copied. */
    constructor OfRecord(startPoint: Record)
      ensures Current() == startPoint
    {
      docid := startPoint.id;
      delete := startPoint.delete;
      lastModified := startPoint.lastModified;
      link := startPoint.link;
      crawlImmediately := startPoint.crawlImmediately;
      crawlOnce := startPoint.crawlOnce;
      lock := startPoint.lock;
    }

    /** `setDocId`: a null id is refused and changes nothing. */
    method SetDocId(id: Option<DocIds.DocId>) returns (r: Result<Builder>)
      modifies this
      ensures id.None? ==> r == Failure(NullPointer) && Current() == old(Current())
      ensures id.Some? ==> r == Success(this) && Current() == old(Current()).(id := id.value)
    {
      if id.None? {
        return Failure(NullPointer);
      }
      docid := id.value;
      return Success(this);
    }

    method SetDeleteFromIndex(b: bool) returns (self: Builder)
      modifies this
      ensures self == this && Current() == old(Current()).(delete := b)
    {
      delete := b;
      return this;
    }

    method SetLastModified(lastModified: Option<Date>) returns (self: Builder)
      modifies this
      ensures self == this && Current() == old(Current()).(lastModified := lastModified)
    {
      this.lastModified := lastModified;
      return this;
    }

    method SetResultLink(link: Option<Uri>) returns (self: Builder)
      modifies this
      ensures self == this && Current() == old(Current()).(link := link)
    {
      this.link := link;
      return this;
    }

    method SetCrawlImmediately(crawlImmediately: bool) returns (self: Builder)
      modifies this
      ensures self == this && Current() == old(Current()).(crawlImmediately := crawlImmediately)
    {
      this.crawlImmediately := crawlImmediately;
      return this;
    }

    method SetCrawlOnce(crawlOnce: bool) returns (self: Builder)
      modifies this
      ensures self == this && Current() == old(Current()).(crawlOnce := crawlOnce)
    {
      this.crawlOnce := crawlOnce;
      return this;
    }

    method SetLock(lock: bool) returns (self: Builder)
      modifies this
      ensures self == this && Current() == old(Current()).(lock := lock)
    {
      this.lock := lock;
      return this;
    }

    /** `build`: a Record holding the builder's fields; the builder is left as it was. */
    method Build() returns (r: Record)
      ensures r == Current()
    {
      r := Record(docid, delete, lastModified, link, crawlImmediately, crawlOnce, lock);
    }
  }

  /** `new Builder(id)`: a null DocId is refused. */
  method NewBuilder(id: Option<DocIds.DocId>) returns (r: Result<Builder>)
    ensures id.None? ==> r == Failure(NullPointer)
    ensures id.Some? ==> r.Success? && fresh(r.value) && r.value.Current() == Defaults(id.value)
  {
    if id.None? {
      return Failure(NullPointer);
    }
    var b := new Builder.OfDocId(id.value);
    return Success(b);
  }

  /** `new Builder(startPoint)`: a null Record fails when its fields are read. */
  method NewBuilderFrom(startPoint: Option<Record>) returns (r: Result<Builder>)
    ensures startPoint.None? ==> r == Failure(NullPointer)
    ensures startPoint.Some? ==> r.Success? && fresh(r.value) && r.value.Current() == startPoint.value
  {
    if startPoint.None? {
      return Failure(NullPointer);
    }
    var b := new Builder.OfRecord(startPoint.value);
    return Success(b);
  }

  /** Copy then build: a Builder started from a Record builds that same Record. */
  method CopyThenBuild(startPoint: Record) returns (copy: Record)
    ensures copy == startPoint
  {
    var b := new Builder.OfRecord(startPoint);
    copy := b.Build();
  }

  /** A Builder made from only a DocId builds the Record `pushDocIds` stands for. */
  method BuildFromDocId(id: DocIds.DocId) returns (r: Record)
    ensures r.id == id
    ensures !r.delete && !r.crawlImmediately && !r.crawlOnce && !r.lock
    ensures r.lastModified.None? && r.link.None?
  {
    var b := new Builder.OfDocId(id);
    r := b.Build();
  }

  /** Two builds with no setter between them give equal Records. */
  method BuildTwice(b: Builder) returns (first: Record, second: Record)
    ensures Equals(first, Some(second))
  {
    first := b.Build();
    second := b.Build();
    EqualsIsValueEquality(first, second);
  }

  /**
   * Builder reuse: a setter between two builds changes the second Record in that
   * one field only, and the first Record stays as it was built.
   */
  method BuildLockBuild(b: Builder, lock: bool) returns (before: Record, after: Record)
    modifies b
    ensures before == old(b.Current())
    ensures after == before.(lock := lock)
  {
    before := b.Build();
    var same := b.SetLock(lock);
    after := same.Build();
  }
}
