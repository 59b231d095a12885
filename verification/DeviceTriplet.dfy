/** Device triplets, their wildcard comparison, and the triplets that come from device descriptors. */
module DeviceTriplet {

  const MATCH_ANY: int := -1

  datatype Triplet = Triplet(vid: int, pid: int, devClass: int)

  type Word = x: int | 0 <= x < 0x1_0000
  type Byte = x: int | 0 <= x < 0x100

  datatype Descriptor = Descriptor(idVendor: Word, idProduct: Word, bDeviceClass: Byte)

  function TripletFromDescriptor(desc: Descriptor): Triplet {
    Triplet(desc.idVendor, desc.idProduct, desc.bDeviceClass)
  }

  predicate FieldMatch(lhs: int, rhs: int) {
    lhs == rhs || lhs == MATCH_ANY || rhs == MATCH_ANY
  }

  predicate WildcardMatch(lhs: Triplet, rhs: Triplet) {
    FieldMatch(lhs.vid, rhs.vid) && FieldMatch(lhs.pid, rhs.pid) && FieldMatch(lhs.devClass, rhs.devClass)
  }

  /** Descriptors have the same triplet exactly when they agree on vendor, product and class. */
  lemma TripletsDiffer(a: Descriptor, b: Descriptor)
    ensures TripletFromDescriptor(a) == TripletFromDescriptor(b) <==>
            a.idVendor == b.idVendor && a.idProduct == b.idProduct && a.bDeviceClass == b.bDeviceClass
  {
  }

  /** A filter's fields are -1, for any value, or a value that a descriptor may have. */
  predicate ProperFilter(t: Triplet) {
    -1 <= t.vid < 0x1_0000 && -1 <= t.pid < 0x1_0000 && -1 <= t.devClass < 0x100
  }

  /** The filter lets the device through. */
  predicate Admits(t: Triplet, desc: Descriptor) {
    && (t.vid != -1 ==> t.vid == desc.idVendor)
    && (t.pid != -1 ==> t.pid == desc.idProduct)
    && (t.devClass != -1 ==> t.devClass == desc.bDeviceClass)
  }

  /** Two filters match exactly when some device passes both; a device's triplet matches the filters that admit it. */
  lemma MatchMeansCommonDevice(a: Triplet, b: Triplet)
    requires ProperFilter(a) && ProperFilter(b)
    ensures WildcardMatch(a, b) <==> exists desc :: Admits(a, desc) && Admits(b, desc)
    ensures forall desc :: WildcardMatch(a, TripletFromDescriptor(desc)) <==> Admits(a, desc)
  {
    if WildcardMatch(a, b) {
      var desc := Descriptor(CommonValue(a.vid, b.vid), CommonValue(a.pid, b.pid), CommonValue(a.devClass, b.devClass));
      assert Admits(a, desc) && Admits(b, desc);
    }
  }

  /** A value that both fields allow. */
  function CommonValue(lhs: int, rhs: int): nat
    requires -1 <= lhs && -1 <= rhs
  {
    if lhs != -1 then lhs else if rhs != -1 then rhs else 0
  }
}
