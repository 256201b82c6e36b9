/** The record every part of the program passes around
    (src/whatsapp_utiles.py, lines 5-7). */
module Messages {
  import opened Calendar

  /** A `datetime.date`: only valid calendar dates exist. */
  type DateValue = d: Date | ValidDate(d) witness Date(1, 1, 1)

  /** A `datetime.time`: only valid times of day exist. */
  type TimeValue = t: Time | ValidTime(t) witness Time(0, 0, 0)

  /** `Mensaje(fecha, hora, usuario, texto)` */
  datatype Message = Message(date: DateValue, time: TimeValue, author: string, text: string)

  /** `DIAS_SEMANA`: the Spanish day names, indexed by `date.weekday()`. */
  const WeekdayNames: seq<string> := ["Lunes", "Martes", "Miércoles", "Jueves", "Viernes", "Sábado", "Domingo"]
}
