/**
 * The scheduler's task record (internal/db/task.go).  `CheckDate` rewrites its
 * `date` field in place, so it is a class.
 */
module Db {
  class Task {
    var id: int
    var date: string
    var title: string
    var comment: string
    var repeat: string

    constructor(id: int, date: string, title: string, comment: string, repeat: string)
      ensures this.id == id && this.date == date && this.title == title
      ensures this.comment == comment && this.repeat == repeat
    {
      this.id := id;
      this.date := date;
      this.title := title;
      this.comment := comment;
      this.repeat := repeat;
    }
  }
}
