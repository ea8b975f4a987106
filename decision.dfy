/**
 * The server's actuation decision (`write_act`): from an integer temperature
 * and humidity to the reply "humidifier.led.buzzer" sent back to a sensor.
 */
module Decision {
  import opened CStrings

  // The codes of the client's state machine: humidifier and buzzer OFF/ON,
  // LED colour RED/GREEN/BLUE.
  const OFF := 0
  const ON := 1
  const RED_LED := 0
  const GREEN_LED := 1
  const BLUE_LED := 2

  /** Too dry: humidifier on, red LED, buzzer off. */
  const DRY := "1.0.0"
  /** Ideal: humidifier off, green LED, buzzer off. */
  const IDEAL := "0.1.0"
  /** Too humid: humidifier off, blue LED, buzzer on. */
  const HUMID := "0.2.1"

  /** One of the three replies. */
  predicate IsCode(reply: string)
  {
    reply == DRY || reply == IDEAL || reply == HUMID
  }

  /**
   * write_act as written: four temperature bands, each compared against its
   * own humidity with <, == and >. write_act has no final `else` in either
   * chain; the `assert false` branches show that no pair of integers reaches
   * them, so the reply buffer is always set.
   */
  function WriteAct(temper: int, humid: int): (code: string)
    ensures IsCode(code)
  {
    if temper < 18 then
      if humid < 70 then DRY
      else if humid == 70 then IDEAL
      else if humid > 70 then HUMID
      else assert false; ""
    else if temper >= 18 && temper <= 20 then
      if humid < 60 then DRY
      else if humid == 60 then IDEAL
      else if humid > 60 then HUMID
      else assert false; ""
    else if temper >= 21 && temper <= 23 then
      if humid < 50 then DRY
      else if humid == 50 then IDEAL
      else if humid > 50 then HUMID
      else assert false; ""
    else if temper >= 24 then
      if humid < 40 then DRY
      else if humid == 40 then IDEAL
      else if humid > 40 then HUMID
      else assert false; ""
    else assert false; ""
  }

  /** The policy table: the ideal humidity of each temperature band. */
  function IdealHumidity(temper: int): (h: int)
    ensures h == 40 || h == 50 || h == 60 || h == 70
  {
    if temper < 18 then 70
    else if temper <= 20 then 60
    else if temper <= 23 then 50
    else 40
  }

  /** The three fields of a reply, as the client reads them. */
  datatype Codes = Codes(humi: int, led: int, buz: int)

  /**
   * The policy stated field by field: the humidifier runs exactly when the air
   * is drier than ideal, the buzzer sounds exactly when it is more humid, and
   * the LED shows which of the three holds.
   */
  function Intended(temper: int, humid: int): (c: Codes)
    ensures c.led == RED_LED || c.led == GREEN_LED || c.led == BLUE_LED
    ensures c.humi == ON <==> c.led == RED_LED
    ensures c.buz == ON <==> c.led == BLUE_LED
    ensures c.led == GREEN_LED <==> humid == IdealHumidity(temper)
    ensures c.humi != ON ==> c.humi == OFF
    ensures c.buz != ON ==> c.buz == OFF
  {
    var ideal := IdealHumidity(temper);
    Codes(if humid < ideal then ON else OFF,
          if humid < ideal then RED_LED else if humid == ideal then GREEN_LED else BLUE_LED,
          if humid > ideal then ON else OFF)
  }

  /** A reply written as "%d.%d.%d". */
  function Render(c: Codes): string
  {
    JoinWith([IntToString(c.humi), IntToString(c.led), IntToString(c.buz)], '.')
  }

  /** Each of the three replies is chosen exactly when the policy table says so. */
  lemma WriteActCases(temper: int, humid: int)
    ensures WriteAct(temper, humid) == DRY <==> humid < IdealHumidity(temper)
    ensures WriteAct(temper, humid) == IDEAL <==> humid == IdealHumidity(temper)
    ensures WriteAct(temper, humid) == HUMID <==> humid > IdealHumidity(temper)
  {
  }

  /** The reply write_act sends is the policy's three fields written out. */
  lemma WriteActRendersIntended(temper: int, humid: int)
    ensures WriteAct(temper, humid) == Render(Intended(temper, humid))
  {
    assert Render(Codes(1, 0, 0)) == DRY;
    assert Render(Codes(0, 1, 0)) == IDEAL;
    assert Render(Codes(0, 2, 1)) == HUMID;
  }

  /** A warmer room never calls for more humidity than a cooler one. */
  lemma IdealHumidityFalls(cooler: int, warmer: int)
    requires cooler <= warmer
    ensures IdealHumidity(warmer) <= IdealHumidity(cooler)
  {
  }
}
