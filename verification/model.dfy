/** The two row types of the store (the Java `Model` package) and the
    optional value that stands for a Java reference that may be null. */
module Model {

  /** `None` stands for the `null` a DAO method returns when it finds or creates nothing. */
  datatype Option<+T> = None | Some(value: T)

  /** A row of the `account` table: `account_id`, `username`, `password`. */
  datatype Account = Account(id: int, username: string, password: string)

  /** A row of the `message` table: `message_id`, `posted_by`, `message_text`,
      `time_posted_epoch`. */
  datatype Message = Message(id: int, postedBy: int, text: string, epoch: int)
}
