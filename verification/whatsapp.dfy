/** `enhanceWhatsAppMessage` (ColombiaAutomation in colombia-automation.js):
    the delivery block appended to an order message once a department and a
    city are chosen. Money and date formatting (`toLocaleString`,
    `toLocaleDateString`) are the parameters `money` and `date`. */
module WhatsApp {
  import opened Text
  import opened Shipping
  import opened Delivery

  /** The appended block: location, delivery window, shipping cost and the
      estimated delivery day. */
  function DeliveryBlock(d: Department, city: string, day: int,
                         money: int -> string, date: int -> string): (b: string)
    ensures Occurs(city, b)
    ensures Occurs(d.name, b)
    ensures Occurs(date(day), b)
  {
    var head := "\n\n📍 *Información de entrega automática:*\n• Ubicación: ";
    var window := "\n• Tiempo estimado: " + IntToString(d.deliveryDays.min) + "-"
                  + IntToString(d.deliveryDays.max) + " días hábiles\n";
    var cost := "• Costo de envío: $" + money(d.shippingCost) + " COP\n";
    var tail := window + cost + "• Entrega estimada: ";
    OccursInFill(head, city, ", ", d.name, tail, date(day), "\n");
    head + city + ", " + d.name + tail + date(day) + "\n"
  }

  /** Each of the three values filled into a template occurs in the result. */
  lemma OccursInFill(p: string, x: string, q: string, y: string, r: string, z: string, u: string)
    ensures Occurs(x, p + x + q + y + r + z + u)
    ensures Occurs(y, p + x + q + y + r + z + u)
    ensures Occurs(z, p + x + q + y + r + z + u)
  {
    var b := p + x + q + y + r + z + u;
    OccursMiddle(p, x, q + y + r + z + u);
    assert b == p + x + (q + y + r + z + u);
    OccursMiddle(p + x + q, y, r + z + u);
    assert b == (p + x + q) + y + (r + z + u);
    OccursMiddle(p + x + q + y + r, z, u);
  }

  /** The day `calculateDeliveryDate` settles on for a window of `target`
      business days. */
  ghost predicate EstimatedDay(today: int, target: int, day: int)
  {
    && day > today
    && IsBusinessDay(day, Holidays2024())
    && CountBusinessDays(today, day, Holidays2024()) == target
  }

  /** `enhanceWhatsAppMessage(message, selectedDept, selectedCity)`: the
      message as it was when the department or the city is missing or the
      department is unknown; otherwise the message followed by the delivery
      block for that department, naming the city, the department and the
      estimated delivery day. */
  method EnhanceWhatsAppMessage(message: string, dept: string, city: string, today: int,
                                money: int -> string, date: int -> string) returns (r: string)
    ensures |message| <= |r| && r[..|message|] == message
    ensures dept == "" || city == "" || LookupDepartment(dept).None? ==> r == message
    ensures dept != "" && city != "" && LookupDepartment(dept).Some? ==>
              var d := LookupDepartment(dept).value;
              && |message| < |r| && r[..|message|] == message
              && Occurs(city, r[|message|..]) && Occurs(d.name, r[|message|..])
              && exists day :: EstimatedDay(today, d.deliveryDays.max, day)
                               && r == message + DeliveryBlock(d, city, day, money, date)
  {
    if dept == "" || city == "" {
      return message;
    }
    var found := LookupDepartment(dept);
    if found.None? {
      return message;
    }
    var d := found.value;
    assert d.deliveryDays.max >= 1;
    var day := CalculateDeliveryDate(today, d.deliveryDays.max, Holidays2024());
    var block := DeliveryBlock(d, city, day, money, date);
    r := message + block;
    assert r[|message|..] == block;
    assert EstimatedDay(today, d.deliveryDays.max, day);
  }
}
