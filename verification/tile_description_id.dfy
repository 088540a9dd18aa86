/** `TileDescriptionId`: a reference type wrapping a string that may itself be
    null, with value equality that is aware of null on both levels.  A C#
    variable of this type is an `Option<TileDescriptionId>` here (`None` is
    null), and the wrapped string is an `Option<string>`. */
module TileDescriptionIds {
  import opened Wrappers

  datatype TileDescriptionId = TileDescriptionId(raw: Option<string>)

  /** The static type `object`, as far as `Equals(object)` can tell values
      apart: null, a `TileDescriptionId`, or an instance of any other class. */
  datatype Object = NullObject | IdObject(id: TileDescriptionId) | OtherObject

  /** `operator ==`: two nulls are equal, null never equals a non-null id,
      and two ids are equal when their strings are (C# string equality, which
      also treats two null strings as equal). */
  function Eq(a: Option<TileDescriptionId>, b: Option<TileDescriptionId>): (r: bool)
    ensures r <==> a == b
    ensures a.None? && b.None? ==> r
    ensures a.None? != b.None? ==> !r
  {
    if a.None? && b.None? then true
    else if a.None? then false
    else if b.None? then false
    else a.value.raw == b.value.raw
  }

  /** `operator !=`, defined through `==` as the source does. */
  function Neq(a: Option<TileDescriptionId>, b: Option<TileDescriptionId>): (r: bool)
    ensures r <==> a != b
  {
    !Eq(a, b)
  }

  /** `Equals(TileDescriptionId other)`: `other != null` goes through the
      overloaded `!=`, then the wrapped strings are compared. */
  function Equals(self: TileDescriptionId, other: Option<TileDescriptionId>): (r: bool)
    ensures r <==> other.Some? && other.value.raw == self.raw
    ensures r <==> other == Some(self)
  {
    Neq(other, None) && self.raw == other.value.raw
  }

  /** `Equals(object)`: only a `TileDescriptionId` argument can be equal. */
  function EqualsObject(self: TileDescriptionId, obj: Object): (r: bool)
    ensures r <==> obj == IdObject(self)
  {
    obj.IdObject? && Equals(self, Some(obj.id))
  }

  /** `GetHashCode`: the string's own hash, or 0 for a null string.  The
      string hash of the runtime is a parameter. */
  function GetHashCode(self: TileDescriptionId, stringHash: string -> int): (r: int)
    ensures self.raw.None? ==> r == 0
    ensures ToString(self).Some? ==> r == stringHash(ToString(self).value)
  {
    if self.raw.Some? then stringHash(self.raw.value) else 0
  }

  /** `ToString`: the wrapped string, null included. */
  function ToString(self: TileDescriptionId): (r: Option<string>)
    ensures TileDescriptionId(r) == self
  {
    self.raw
  }

  /** `Equals(object)` agrees with the typed `Equals` on ids and rejects null
      and every other class. */
  lemma EqualsObjectAgrees(self: TileDescriptionId, obj: Object)
    ensures obj.IdObject? ==> (EqualsObject(self, obj) <==> Equals(self, Some(obj.id)))
    ensures obj.NullObject? || obj.OtherObject? ==> !EqualsObject(self, obj)
  {
  }

  /** Equal ids hash alike, whatever the string hash is, and a null string
      hashes to 0. */
  lemma HashAgreesWithEquals(a: TileDescriptionId, b: TileDescriptionId, stringHash: string -> int)
    ensures Equals(a, Some(b)) ==> GetHashCode(a, stringHash) == GetHashCode(b, stringHash)
    ensures a.raw.None? ==> GetHashCode(a, stringHash) == 0
  {
  }

  /** `ToString` returns exactly the string the constructor was given. */
  lemma ToStringRoundTrip(s: Option<string>)
    ensures ToString(TileDescriptionId(s)) == s
  {
  }

  /** `!=` is the negation of `==` on every pair, and `==` is symmetric. */
  lemma NeqNegatesEq(a: Option<TileDescriptionId>, b: Option<TileDescriptionId>)
    ensures Neq(a, b) == !Eq(a, b)
    ensures Eq(a, b) == Eq(b, a)
  {
  }
}
