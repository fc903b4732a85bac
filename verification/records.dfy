/** The two kinds of entry the lateness book keeps in memory. */
module Records {

  /** The script stamps entries with `Date.now() + Math.random()`; here an id
      is an abstract number handed out by the store's counter. */
  type Id = nat

  /** One roster entry `{id, name, klass}`. */
  datatype Student = Student(id: Id, name: string, klass: string)

  /** One lateness event `{id, name, klass, date, time, reason}`: name and
      class are copied from the student when it is recorded. */
  datatype Lateness = Lateness(id: Id, name: string, klass: string, date: string, time: string, reason: string)
}
