/** The Colombian department table and the rules built on it: region matching
    and the shipping-inclusive total (ColombiaAutomation in colombia-automation.js). */
module Shipping {
  import opened Wrappers
  import opened Text

  /** Delivery time in business days. */
  datatype DeliveryWindow = DeliveryWindow(min: int, max: int)

  /** One entry of `colombianDepartments`, together with its key. */
  datatype Department = Department(
    key: string,
    name: string,
    capital: string,
    cities: seq<string>,
    deliveryDays: DeliveryWindow,
    shippingCost: int)

  /** The department table, in the insertion order of the object literal (the
      order `Object.entries` visits it). */
  function Departments(): (t: seq<Department>)
    ensures |t| == 5
  {
    var t :=
      [ Department("antioquia", "Antioquia", "Medellín",
                   ["Medellín", "Bello", "Itagüí", "Envigado", "Apartadó", "Turbo"],
                   DeliveryWindow(7, 10), 15000),
        Department("bogota", "Bogotá D.C.", "Bogotá", ["Bogotá"],
                   DeliveryWindow(6, 9), 12000),
        Department("valle", "Valle del Cauca", "Cali",
                   ["Cali", "Palmira", "Buenaventura", "Tuluá", "Cartago"],
                   DeliveryWindow(8, 11), 16000),
        Department("atlantico", "Atlántico", "Barranquilla",
                   ["Barranquilla", "Soledad", "Malambo", "Galapa"],
                   DeliveryWindow(9, 12), 18000),
        Department("santander", "Santander", "Bucaramanga",
                   ["Bucaramanga", "Floridablanca", "Girón", "Piedecuesta"],
                   DeliveryWindow(8, 11), 17000) ];
    t
  }

  /** What every entry of the table guarantees: a delivery window of at least
      one business day with min <= max, a positive shipping cost, the capital
      among the cities, and keys that identify entries. */
  ghost predicate WellFormedTable(t: seq<Department>)
  {
    && (forall i :: 0 <= i < |t| ==>
          && 1 <= t[i].deliveryDays.min <= t[i].deliveryDays.max
          && t[i].shippingCost > 0
          && t[i].capital in t[i].cities)
    && (forall i, j :: 0 <= i < j < |t| ==> t[i].key != t[j].key)
  }

  /** The table meets `WellFormedTable`. */
  lemma DepartmentsWellFormed()
    ensures WellFormedTable(Departments())
  {
    DepartmentEntriesValid();
    DepartmentKeysDistinct();
  }

  lemma DepartmentEntriesValid()
    ensures forall i :: 0 <= i < 5 ==>
              var d := Departments()[i];
              1 <= d.deliveryDays.min <= d.deliveryDays.max && d.shippingCost > 0 && d.capital in d.cities
  {
  }

  lemma DepartmentKeysDistinct()
    ensures forall i, j :: 0 <= i < j < 5 ==> Departments()[i].key != Departments()[j].key
  {
  }

  /** `colombianDepartments[key]`, absent for a key outside the table. */
  function LookupDepartment(key: string): (r: Option<Department>)
    ensures r.Some? <==> exists i :: 0 <= i < |Departments()| && Departments()[i].key == key
    ensures r.Some? ==> r.value in Departments() && r.value.key == key
    ensures r.Some? ==> 1 <= r.value.deliveryDays.min <= r.value.deliveryDays.max
                        && r.value.shippingCost > 0
  {
    DepartmentEntriesValid();
    LookupIn(Departments(), key)
  }

  function LookupIn(t: seq<Department>, key: string): (r: Option<Department>)
    ensures r.Some? <==> exists i :: 0 <= i < |t| && t[i].key == key
    ensures r.Some? ==> r.value in t && r.value.key == key
    decreases |t|
  {
    if |t| == 0 then None
    else if t[0].key == key then Some(t[0])
    else
      var r := LookupIn(t[1..], key);
      assert forall i :: 1 <= i < |t| ==> t[i] == t[1..][i - 1];
      r
  }

  // ---------------------------------------------------------------------
  // Region matching

  /** The test of `findDepartmentByRegion`: either lower-cased name contains
      the other. */
  predicate RegionMatches(d: Department, region: string)
  {
    Includes(Lower(d.name), Lower(region)) || Includes(Lower(region), Lower(d.name))
  }

  /** `findDepartmentByRegion(region)`: the first entry of the table, in order,
      whose name matches the region. */
  function FindDepartmentByRegion(region: string): (r: Option<Department>)
    ensures r.None? <==> forall i :: 0 <= i < |Departments()| ==> !RegionMatches(Departments()[i], region)
    ensures r.Some? ==> exists i :: 0 <= i < |Departments()| && Departments()[i] == r.value
                                    && RegionMatches(r.value, region)
                                    && forall j :: 0 <= j < i ==> !RegionMatches(Departments()[j], region)
  {
    FirstMatch(Departments(), region)
  }

  function FirstMatch(t: seq<Department>, region: string): (r: Option<Department>)
    ensures r.None? <==> forall i :: 0 <= i < |t| ==> !RegionMatches(t[i], region)
    ensures r.Some? ==> exists i :: 0 <= i < |t| && t[i] == r.value && RegionMatches(r.value, region)
                                    && forall j :: 0 <= j < i ==> !RegionMatches(t[j], region)
    decreases |t|
  {
    if |t| == 0 then None
    else if RegionMatches(t[0], region) then Some(t[0])
    else
      var r := FirstMatch(t[1..], region);
      assert forall i :: 1 <= i < |t| ==> t[i] == t[1..][i - 1];
      if r.Some? then
        var i :| 0 <= i < |t[1..]| && t[1..][i] == r.value && RegionMatches(r.value, region)
                 && forall j :: 0 <= j < i ==> !RegionMatches(t[1..][j], region);
        assert t[i + 1] == r.value;
        r
      else
        r
  }

  /** The empty region is contained in every name, so it selects the first
      entry, Antioquia. */
  lemma EmptyRegionSelectsAntioquia()
    ensures FindDepartmentByRegion("") == Some(Departments()[0])
    ensures Departments()[0].key == "antioquia"
  {
    OccursEmpty(Lower(Departments()[0].name));
    FirstMatchAt(Departments(), "", 0);
  }

  /** `setDetectedLocation(city, region)` as far as the department goes. The
      region comes from a geolocation reply and may be `undefined` (`None`):
      `region.toLowerCase()` then throws, the caller's `catch` only logs, and
      no department is chosen. */
  function DetectedDepartment(region: Option<string>): (r: Option<Department>)
    ensures region.None? ==> r.None?
    ensures region.Some? ==> r == FindDepartmentByRegion(region.value)
  {
    match region
    case None => None
    case Some(name) => FindDepartmentByRegion(name)
  }

  /** A missing region chooses nothing, while an empty one chooses Antioquia. */
  lemma MissingAndEmptyRegionDiffer()
    ensures DetectedDepartment(None).None?
    ensures DetectedDepartment(Some("")) == Some(Departments()[0])
  {
    EmptyRegionSelectsAntioquia();
  }

  /** The lower-cased department names, in table order. */
  const LowerNameTable: seq<string> :=
    ["antioquia", "bogotá d.c.", "valle del cauca", "atlántico", "santander"]

  lemma LowerNames(i: nat)
    requires i < 5
    ensures Lower(Departments()[i].name) == LowerNameTable[i]
  {
    if i == 0 { LowerName("Antioquia", "antioquia"); }
    else if i == 1 { LowerName("Bogotá D.C.", "bogotá d.c."); }
    else if i == 2 { LowerName("Valle del Cauca", "valle del cauca"); }
    else if i == 3 { LowerName("Atlántico", "atlántico"); }
    else { LowerName("Santander", "santander"); }
  }

  lemma LowerName(name: string, lower: string)
    requires |name| == |lower|
    requires forall k :: 0 <= k < |name| ==> LowerChar(name[k]) == lower[k]
    ensures Lower(name) == lower
  {
  }

  /** A character of one name that the other lacks rules out containment. */
  lemma NotOccursByChar(sub: string, s: string, c: char)
    requires c in sub && c !in s
    ensures !Occurs(sub, s)
  {
    if Occurs(sub, s) {
      OccursChars(sub, s, c);
    }
  }

  /** Containment needs the piece to be no longer than the whole, and two
      different names of equal length do not contain each other. */
  lemma NotOccursByLength(sub: string, s: string)
    requires |sub| > |s| || (|sub| == |s| && sub != s)
    ensures !Occurs(sub, s)
  {
    if Occurs(sub, s) {
      OccursLength(sub, s);
    }
  }

  /** The two names at positions i and j do not contain each other. */
  ghost predicate Apart(i: nat, j: nat)
    requires i < 5 && j < 5
  {
    !Occurs(LowerNameTable[i], LowerNameTable[j]) && !Occurs(LowerNameTable[j], LowerNameTable[i])
  }

  lemma BogotaApart()
    ensures Apart(1, 0)
  {
    NotOccursByLength("bogotá d.c.", "antioquia");
    NotOccursByChar("antioquia", "bogotá d.c.", 'q');
  }

  lemma ValleApart()
    ensures Apart(2, 0) && Apart(2, 1)
  {
    NotOccursByLength("valle del cauca", "antioquia");
    NotOccursByChar("antioquia", "valle del cauca", 'q');
    NotOccursByLength("valle del cauca", "bogotá d.c.");
    NotOccursByChar("bogotá d.c.", "valle del cauca", 'b');
  }

  lemma AtlanticoApart()
    ensures Apart(3, 0) && Apart(3, 1) && Apart(3, 2)
  {
    NotOccursByLength("atlántico", "antioquia");
    NotOccursByLength("antioquia", "atlántico");
    NotOccursByLength("bogotá d.c.", "atlántico");
    NotOccursByChar("atlántico", "bogotá d.c.", 'n');
    NotOccursByLength("valle del cauca", "atlántico");
    NotOccursByChar("atlántico", "valle del cauca", 'n');
  }

  lemma SantanderApart()
    ensures Apart(4, 0) && Apart(4, 1) && Apart(4, 2) && Apart(4, 3)
  {
    NotOccursByLength("santander", "antioquia");
    NotOccursByLength("antioquia", "santander");
    NotOccursByLength("bogotá d.c.", "santander");
    NotOccursByChar("santander", "bogotá d.c.", 's');
    NotOccursByLength("valle del cauca", "santander");
    NotOccursByChar("santander", "valle del cauca", 's');
    NotOccursByLength("santander", "atlántico");
    NotOccursByLength("atlántico", "santander");
  }

  /** No department name contains another. */
  lemma NamesApart(i: nat, j: nat)
    requires j < i < 5
    ensures Apart(i, j)
  {
    if i == 1 { BogotaApart(); }
    else if i == 2 { ValleApart(); }
    else if i == 3 { AtlanticoApart(); }
    else { SantanderApart(); }
  }

  lemma {:induction false} FirstMatchAt(t: seq<Department>, region: string, i: nat)
    requires i < |t| && RegionMatches(t[i], region)
    requires forall j :: 0 <= j < i ==> !RegionMatches(t[j], region)
    ensures FirstMatch(t, region) == Some(t[i])
    decreases i
  {
    if i > 0 {
      var rest := t[1..];
      assert rest[i - 1] == t[i];
      assert forall j :: 0 <= j < i - 1 ==> rest[j] == t[j + 1];
      FirstMatchAt(rest, region, i - 1);
      assert !RegionMatches(t[0], region);
    }
  }

  /** A region spelled like a department's name, in any letter case, selects
      that department (and hence its key). */
  lemma ExactNameSelectsDepartment(region: string, i: nat)
    requires i < |Departments()|
    requires Lower(region) == Lower(Departments()[i].name)
    ensures FindDepartmentByRegion(region) == Some(Departments()[i])
  {
    var t := Departments();
    OccursSelf(Lower(region));
    forall j | 0 <= j < i
      ensures !RegionMatches(t[j], region)
    {
      NamesApart(i, j);
      LowerNames(i);
      LowerNames(j);
    }
    FirstMatchAt(t, region, i);
  }

  // ---------------------------------------------------------------------
  // Shipping-inclusive total

  const FreeShippingThreshold: int := 200000

  /** The selected location; "" stands for an unselected (null) field. */
  datatype Location = Location(department: string, city: string)

  /** `calculateTotalWithShipping(subtotal)` for the given selected location. */
  function CalculateTotalWithShipping(subtotal: int, loc: Location): (total: int)
    ensures loc.department == "" || LookupDepartment(loc.department).None? ==> total == subtotal
    ensures LookupDepartment(loc.department).Some? ==>
              var cost := LookupDepartment(loc.department).value.shippingCost;
              subtotal <= total <= subtotal + cost
              && (total == subtotal <==> subtotal >= FreeShippingThreshold)
  {
    if loc.department == "" then subtotal
    else
      match LookupDepartment(loc.department)
      case None => subtotal
      case Some(d) =>
        var shipping := if subtotal >= FreeShippingThreshold then 0 else d.shippingCost;
        subtotal + shipping
  }

  /** Shipping is all or nothing: at or above the threshold it is free,
      below it the department's full cost is added. */
  lemma ShippingAllOrNothing(subtotal: int, loc: Location)
    requires loc.department != ""
    requires LookupDepartment(loc.department).Some?
    ensures var cost := LookupDepartment(loc.department).value.shippingCost;
            CalculateTotalWithShipping(subtotal, loc) ==
              (if subtotal >= FreeShippingThreshold then subtotal else subtotal + cost)
  {
  }

  /** The city plays no part in the total: only the department is consulted. */
  lemma TotalIgnoresCity(subtotal: int, dept: string, c1: string, c2: string)
    ensures CalculateTotalWithShipping(subtotal, Location(dept, c1))
         == CalculateTotalWithShipping(subtotal, Location(dept, c2))
  {
  }

  /** Just below the threshold an order costs more in total than one at the
      threshold: the total is not monotone in the subtotal. */
  lemma TotalDipsAtThreshold(loc: Location)
    requires loc.department != "" && LookupDepartment(loc.department).Some?
    ensures CalculateTotalWithShipping(FreeShippingThreshold - 1, loc)
          > CalculateTotalWithShipping(FreeShippingThreshold, loc)
  {
  }
}
