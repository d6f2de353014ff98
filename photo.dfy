/** photoscript's `Photo`: a handle on one item selected in Photos. Its `date` is the
    item's capture time as a naive wall clock in the process's local zone; assigning
    it changes the item in the library. */
module Photos {
  import Calendar

  class Photo {
    const uuid: string
    const filename: string
    var date: int

    /** `date` is a Python `datetime`, so its year lies in 1..9999. */
    ghost predicate Valid()
      reads this
    {
      Calendar.InRange(date)
    }

    constructor (uuid: string, filename: string, date: int)
      requires Calendar.InRange(date)
      ensures Valid() && this.uuid == uuid && this.filename == filename && this.date == date
    {
      this.uuid := uuid;
      this.filename := filename;
      this.date := date;
    }
  }
}
